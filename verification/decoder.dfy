/** The decoder of a packed file: the code table is inverted, and letters
    are read off the front of the bit text by matching codes. */
module Decoder {
  import opened Entries
  import opened Results
  import opened CodeAssigner

  /** No two characters share a code. */
  predicate Injective(table: map<char, Code>)
  {
    forall c, d :: c in table && d in table && c != d ==> table[c] != table[d]
  }

  /** The table from codes back to characters. */
  function Invert(table: map<char, Code>): (inv: map<Code, char>)
    requires Injective(table)
    ensures forall c :: c in table ==> table[c] in inv && inv[table[c]] == c
    ensures forall u :: u in inv ==> inv[u] in table && table[inv[u]] == u
  {
    map c | c in table :: table[c] := c
  }

  /** The shortest prefix of `bits`, of length at least `from`, that is a
      code of `inv`; `None` when there is none. */
  function ShortestMatch(bits: Code, inv: map<Code, char>, from: nat): (r: Option<nat>)
    requires from <= |bits|
    ensures r.Some? ==> && from <= r.value <= |bits| && bits[..r.value] in inv
                        && forall k :: from <= k < r.value ==> bits[..k] !in inv
    ensures r.None? ==> forall k :: from <= k <= |bits| ==> bits[..k] !in inv
    decreases |bits| - from
  {
    if bits[..from] in inv then Some(from)
    else if from == |bits| then None
    else ShortestMatch(bits, inv, from + 1)
  }

  /** The decoder's scan over the codes in the order `keys` lists them:
      the position of the first code, at or after `from`, that begins
      `bits`; `None` when no code there begins `bits`. */
  function FirstFit(bits: Code, keys: seq<Code>, from: nat): (r: Option<nat>)
    requires from <= |keys|
    ensures r.Some? ==> && from <= r.value < |keys| && PrefixOf(keys[r.value], bits)
                        && forall j :: from <= j < r.value ==> !PrefixOf(keys[j], bits)
    ensures r.None? ==> forall j :: from <= j < |keys| ==> !PrefixOf(keys[j], bits)
    decreases |keys| - from
  {
    if from == |keys| then None
    else if PrefixOf(keys[from], bits) then Some(from)
    else FirstFit(bits, keys, from + 1)
  }

  /** Reads `count` letters off the front of `bits`. Each step takes the
      code that begins the remaining bits, emits its letter and drops
      exactly the code's bits; bits left over after the last letter (the
      padding of the last byte) are ignored. */
  function DecodeSymbols(bits: Code, inv: map<Code, char>, count: nat): (r: Result<string>)
    ensures r.Success? ==> |r.value| == count
    ensures r.Success? ==> forall i :: 0 <= i < count ==> r.value[i] in inv.Values
    ensures r.Failure? ==> r.error == NoMatchingCode || r.error == EndOfStream
    decreases count
  {
    if count == 0 then Success([])
    else match ShortestMatch(bits, inv, 0)
      case None => Failure(if bits == [] then EndOfStream else NoMatchingCode)
      case Some(k) =>
        var rest := DecodeSymbols(bits[k..], inv, count - 1);
        if rest.Failure? then rest
        else
          var s := [inv[bits[..k]]] + rest.value;
          assert forall i :: 1 <= i < count ==> s[i] == rest.value[i - 1];
          Success(s)
  }
}
