/** The walk over the binary list that gives every character a code: the
    first entry of a pair appends bit 1, the second appends bit 0, and a
    leaf stores the bits gathered on the way down. */
module CodeAssigner {
  import opened Entries
  import opened Results

  /** `u` is a prefix of `v`. */
  predicate PrefixOf(u: Code, v: Code)
  {
    |u| <= |v| && v[..|u|] == u
  }

  /** No character's code is a prefix of another character's code. */
  predicate PrefixFree(table: map<char, Code>)
  {
    forall c, d :: c in table && d in table && c != d ==> !PrefixOf(table[c], table[d])
  }

  /** The codes of the leaves below `e`, each the bits of `path` followed by
      the bits of the way from `e` down to the leaf. */
  function EntryCodes(e: Entry, path: Code): (r: map<char, Code>)
    ensures forall c :: c in r <==> c in Leaves(e)
    ensures forall c :: c in r ==> PrefixOf(path, r[c])
    ensures e.Group? ==> forall c :: c in r ==> |r[c]| > |path|
    ensures PrefixFree(r)
  {
    match e
    case Leaf(c, _) => map[c := path]
    case Group(a, b, _) =>
      var left := EntryCodes(a, path + [true]);
      var right := EntryCodes(b, path + [false]);
      MergedPrefixFree(left, right, path);
      left + right
  }

  /** Codes that extend `path + [true]` and codes that extend `path + [false]`
      part at position `|path|`, so no code of one side is a prefix of a code
      of the other. */
  lemma MergedPrefixFree(left: map<char, Code>, right: map<char, Code>, path: Code)
    requires PrefixFree(left) && PrefixFree(right)
    requires forall c :: c in left ==> PrefixOf(path + [true], left[c])
    requires forall c :: c in right ==> PrefixOf(path + [false], right[c])
    ensures PrefixFree(left + right)
    ensures forall c :: c in left + right ==> PrefixOf(path, (left + right)[c])
  {
    var m := left + right;
    forall c, d | c in m && d in m && c != d
      ensures !PrefixOf(m[c], m[d])
    {
      var u, v := m[c], m[d];
      if c in right && d !in right {
        assert u[|path|] == (path + [false])[|path|] == false;
        assert v[|path|] == (path + [true])[|path|] == true;
        if |u| <= |v| {
          assert v[..|u|][|path|] == v[|path|];
        }
      } else if c !in right && d in right {
        assert u[|path|] == true && v[|path|] == false;
        if |u| <= |v| {
          assert v[..|u|][|path|] == v[|path|];
        }
      }
    }
    forall c | c in m ensures PrefixOf(path, m[c]) {
      var u := m[c];
      var ext := if c in right then path + [false] else path + [true];
      assert u[..|ext|] == ext;
      assert u[..|path|] == u[..|ext|][..|path|];
    }
  }

  /** The codes of a level of the binary list: the entry at position `index`
      gets bit 1 when it is the first one and bit 0 otherwise. A character
      found again in a later entry takes that later code, as a repeated
      dictionary assignment does. */
  function LevelCodes(xs: seq<Entry>, index: nat, path: Code): (r: map<char, Code>)
    ensures forall c :: c in r <==> c in LeavesOf(xs)
    ensures forall c :: c in r ==> |r[c]| > |path| && PrefixOf(path, r[c])
  {
    if xs == [] then map[]
    else
      var here := EntryCodes(xs[0], path + [index == 0]);
      var rest := LevelCodes(xs[1..], index + 1, path);
      ExtendsPath(here, path, index == 0);
      here + rest
  }

  lemma ExtendsPath(m: map<char, Code>, path: Code, bit: bool)
    requires forall c :: c in m ==> PrefixOf(path + [bit], m[c])
    ensures forall c :: c in m ==> |m[c]| > |path| && PrefixOf(path, m[c])
  {
  }

  /** `binary_alphabet`: the code table of a binary list. */
  function BinaryAlphabet(xs: seq<Entry>): (r: map<char, Code>)
    ensures forall c :: c in r <==> c in LeavesOf(xs)
    ensures forall c :: c in r ==> |r[c]| >= 1
    ensures |xs| <= 2 ==> PrefixFree(r)
  {
    var r := LevelCodes(xs, 0, []);
    if |xs| == 2 then
      PairPrefixFree(xs);
      r
    else if |xs| == 1 then
      assert xs[1..] == [];
      r
    else r
  }

  lemma PairPrefixFree(xs: seq<Entry>)
    requires |xs| == 2
    ensures PrefixFree(LevelCodes(xs, 0, []))
  {
    var left, right := EntryCodes(xs[0], [true]), EntryCodes(xs[1], [false]);
    MergedPrefixFree(left, right, []);
    var m := left + right;
    assert PrefixFree(m);
    TopLevelCodes(xs);
    assert LevelCodes(xs, 0, []) == m;
  }

  /** The top level of a binary list of one or two entries: the first entry's
      codes start with 1, the second's with 0. */
  lemma TopLevelCodes(xs: seq<Entry>)
    requires 1 <= |xs| <= 2
    ensures |xs| == 1 ==> LevelCodes(xs, 0, []) == EntryCodes(xs[0], [true])
    ensures |xs| == 2 ==> LevelCodes(xs, 0, []) == EntryCodes(xs[0], [true]) + EntryCodes(xs[1], [false])
  {
    var p: Code := [];
    var tail := xs[1..];
    LevelCodesUnfold(xs, 0, p);
    assert p + [true] == [true];
    if |xs| == 2 {
      LevelCodesUnfold(tail, 1, p);
      assert tail[1..] == [];
      assert p + [false] == [false];
      UnionWithEmpty(EntryCodes(xs[1], [false]));
    } else {
      assert tail == [];
      UnionWithEmpty(EntryCodes(xs[0], [true]));
    }
  }

  lemma LevelCodesUnfold(xs: seq<Entry>, index: nat, path: Code)
    requires xs != []
    ensures LevelCodes(xs, index, path) == EntryCodes(xs[0], path + [index == 0]) + LevelCodes(xs[1..], index + 1, path)
  {
  }

  lemma UnionWithEmpty(m: map<char, Code>)
    ensures m + map[] == m
  {
  }

  /** Reads `code` as a way down from `e`: bit 1 takes the first entry of a
      group, bit 0 the second, and the code must end exactly at a leaf. */
  function Walk(e: Entry, code: Code): Option<char>
    decreases |code|
  {
    match e
    case Leaf(c, _) => if code == [] then Some(c) else None
    case Group(a, b, _) =>
      if code == [] then None else Walk(if code[0] then a else b, code[1..])
  }

  /** Reads `code` as a way down from the binary list `xs`: its first bit
      picks the first (1) or the second (0) entry. */
  function WalkLevel(xs: seq<Entry>, code: Code): Option<char>
  {
    if code == [] then None
    else if code[0] then (if |xs| >= 1 then Walk(xs[0], code[1..]) else None)
    else if |xs| >= 2 then Walk(xs[1], code[1..]) else None
  }

  /** Every code that the walk writes is the way down to a leaf that holds
      its character. */
  lemma {:induction false} CodeLeadsToLeaf(e: Entry, path: Code, c: char)
    requires c in EntryCodes(e, path)
    ensures PrefixOf(path, EntryCodes(e, path)[c])
    ensures Walk(e, EntryCodes(e, path)[c][|path|..]) == Some(c)
    decreases e
  {
    var u := EntryCodes(e, path)[c];
    match e
    case Leaf(_, _) =>
      assert u[|path|..] == [];
    case Group(a, b, _) =>
      var bit := c !in EntryCodes(b, path + [false]);
      var ext := path + [bit];
      var child := if bit then a else b;
      GroupCode(e, path, c);
      assert u == EntryCodes(child, ext)[c];
      CodeLeadsToLeaf(child, ext, c);
      assert |ext| == |path| + 1;
      assert PrefixOf(ext, u) && Walk(child, u[|path| + 1..]) == Some(c);
      DescendStep(e, path, bit, u, c);
  }

  /** One step down a group: a code that continues `path` with `bit` and
      then leads from the chosen child to `c` leads from the group to `c`. */
  lemma DescendStep(e: Entry, path: Code, bit: bool, u: Code, c: char)
    requires e.Group? && PrefixOf(path + [bit], u)
    requires Walk(if bit then e.first else e.second, u[|path| + 1..]) == Some(c)
    ensures PrefixOf(path, u)
    ensures Walk(e, u[|path|..]) == Some(c)
  {
  }

  /** A character of a group takes its code from the second entry when it
      has one there, and from the first otherwise. */
  lemma GroupCode(e: Entry, path: Code, c: char)
    requires e.Group? && c in EntryCodes(e, path)
    ensures var bit := c !in EntryCodes(e.second, path + [false]);
            && c in EntryCodes(if bit then e.first else e.second, path + [bit])
            && EntryCodes(e, path)[c] == EntryCodes(if bit then e.first else e.second, path + [bit])[c]
  {
  }

  lemma WalkStep(e: Entry, code: Code)
    requires e.Group? && code != []
    ensures Walk(e, code) == Walk(if code[0] then e.first else e.second, code[1..])
  {
  }

  /** The code of a character of a binary list of at most two entries is the
      way down to a leaf holding it. */
  lemma CodesFollowTree(xs: seq<Entry>, c: char)
    requires |xs| <= 2 && c in BinaryAlphabet(xs)
    ensures WalkLevel(xs, BinaryAlphabet(xs)[c]) == Some(c)
  {
    TopLevelCodes(xs);
    var code := LevelCodes(xs, 0, [])[c];
    if |xs| == 2 && c in EntryCodes(xs[1], [false]) {
      assert code == EntryCodes(xs[1], [false])[c];
      CodeLeadsToLeaf(xs[1], [false], c);
      assert code[..1] == [false];
      assert code[0] == code[..1][0] == false;
      LevelStep(xs, code);
    } else {
      assert code == EntryCodes(xs[0], [true])[c];
      CodeLeadsToLeaf(xs[0], [true], c);
      assert code[..1] == [true];
      assert code[0] == code[..1][0] == true;
      LevelStep(xs, code);
    }
  }

  lemma LevelStep(xs: seq<Entry>, code: Code)
    requires 1 <= |xs| <= 2 && |code| >= 1
    requires !code[0] ==> |xs| == 2
    ensures WalkLevel(xs, code) == Walk(if code[0] then xs[0] else xs[1], code[1..])
  {
  }

  /** A binary list of a single leaf gives its character the code "1". */
  lemma OneLeafGetsOne(c: char, n: nat)
    ensures BinaryAlphabet([Leaf(c, n)]) == map[c := [true]]
  {
  }

  /** A binary list whose only leaf character is `c` gives `c` the code "1"
      and no other character a code. */
  lemma OneLetterTable(xs: seq<Entry>, c: char)
    requires LeavesOf(xs) == multiset{c}
    ensures BinaryAlphabet(xs) == map[c := [true]]
  {
    OneLetterList(xs, c);
    var n := xs[0].count;
    assert xs == [Leaf(c, n)];
    OneLeafGetsOne(c, n);
  }
}
