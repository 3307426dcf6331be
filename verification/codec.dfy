/** The codec end to end: the code table of a text, the packed file, and
    the decoding of that file back into the text. */
module Codec {
  import opened Entries
  import opened Results
  import opened TreeBuilder
  import opened CodeAssigner
  import opened BitPacking
  import opened Encoder
  import opened Decoder

  /** The code table of `text`: the codes of the binary list built from its
      frequency table. */
  function CodeTable(text: string): (r: map<char, Code>)
    ensures forall c :: c in r <==> c in text
    ensures forall c :: c in r ==> |r[c]| >= 1
    ensures PrefixFree(r)
  {
    LettersOfBinaryList(text);
    BinaryAlphabet(BinaryList(text))
  }

  lemma LettersOfBinaryList(text: string)
    ensures forall c :: c in LeavesOf(BinaryList(text)) <==> c in text
  {
    var xs := BinaryList(text);
    forall c ensures c in LeavesOf(xs) <==> c in text {
      assert LeavesOf(xs)[c] == if c in text then 1 else 0;
    }
  }

  /** A text made of a single distinct letter gets the code "1" for it and
      no other code. */
  lemma LoneLetterGetsOne(text: string, c: char)
    requires text != [] && forall i :: 0 <= i < |text| ==> text[i] == c
    ensures CodeTable(text) == map[c := [true]]
  {
    var xs := BinaryList(text);
    LeavesOfLoneLetter(text, c, xs);
    OneLetterTable(xs, c);
  }

  lemma LeavesOfLoneLetter(text: string, c: char, xs: seq<Entry>)
    requires text != [] && forall i :: 0 <= i < |text| ==> text[i] == c
    requires forall x :: LeavesOf(xs)[x] == if x in text then 1 else 0
    ensures LeavesOf(xs) == multiset{c}
  {
    assert text[0] == c;
    forall x ensures LeavesOf(xs)[x] == multiset{c}[x] {
      if x != c {
        assert x !in text;
      }
    }
  }

  /** `encode_file_bin`: the bytes written for `text`. */
  function EncodeFileBin(text: string): (r: seq<byte>)
    ensures EncodeText(text, CodeTable(text)).Success?
    ensures |r| == var len := |EncodeText(text, CodeTable(text)).value|;
                   if len == 0 then 1 else (len + 7) / 8
    ensures Unpack(r) == EncodeText(text, CodeTable(text)).value
                         + Zeros(8 * |r| - |EncodeText(text, CodeTable(text)).value|)
  {
    TableCoversText(text);
    Pack(EncodeText(text, CodeTable(text)).value)
  }

  lemma TableCoversText(text: string)
    ensures EncodeText(text, CodeTable(text)).Success?
  {
  }

  /** A prefix-free table gives every code its own character. */
  lemma PrefixFreeIsInjective(table: map<char, Code>)
    requires PrefixFree(table)
    ensures Injective(table)
  {
  }

  /** `decode`: the bytes expanded to bits and `count` letters read from
      them with the inverted table. */
  function DecodeFile(bytes: seq<byte>, table: map<char, Code>, count: nat): (r: Result<string>)
    requires Injective(table)
    ensures r.Success? ==> |r.value| == count && forall i :: 0 <= i < count ==> r.value[i] in table
  {
    var inv := Invert(table);
    var r := DecodeSymbols(Unpack(bytes), inv, count);
    if r.Success? then
      assert forall i :: 0 <= i < count ==> r.value[i] in table by {
        forall i | 0 <= i < count ensures r.value[i] in table {
          var u :| u in inv && inv[u] == r.value[i];
        }
      }
      r
    else r
  }

  /** In a prefix-free table at most one code begins any bit text. */
  lemma AtMostOneCodeFits(table: map<char, Code>, bits: Code, c: char, d: char)
    requires PrefixFree(table) && c in table && d in table
    requires PrefixOf(table[c], bits) && PrefixOf(table[d], bits)
    ensures c == d
  {
  }

  /** With a prefix-free table, the only code that begins the bits of a
      letter followed by anything is that letter's own code, and it is the
      match the decoder takes. */
  lemma MatchesOwnCode(table: map<char, Code>, c: char, tail: Code)
    requires PrefixFree(table) && c in table
    ensures forall d :: d in table && PrefixOf(table[d], table[c] + tail) ==> d == c
    ensures Injective(table)
    ensures ShortestMatch(table[c] + tail, Invert(table), 0) == Some(|table[c]|)
  {
    PrefixFreeIsInjective(table);
    var inv := Invert(table);
    var code := table[c];
    var bits := code + tail;
    assert bits[..|code|] == code;
    forall d | d in table && PrefixOf(table[d], bits) ensures d == c {
      AtMostOneCodeFits(table, bits, c, d);
    }
  }

  /** The source scans the codes in dictionary order and takes the first
      that begins the bits. For a prefix-free table, whatever the order of
      `keys`, that scan finds a code exactly when the shortest match does,
      and the code it finds has the length the shortest match reports. */
  lemma ScanAgreesWithShortest(table: map<char, Code>, keys: seq<Code>, bits: Code)
    requires PrefixFree(table)
    requires forall c :: c in table ==> table[c] in keys
    requires forall j :: 0 <= j < |keys| ==> keys[j] in table.Values
    ensures Injective(table)
    ensures FirstFit(bits, keys, 0).None? <==> ShortestMatch(bits, Invert(table), 0).None?
    ensures FirstFit(bits, keys, 0).Some? ==>
              ShortestMatch(bits, Invert(table), 0) == Some(|keys[FirstFit(bits, keys, 0).value]|)
  {
    PrefixFreeIsInjective(table);
    var inv := Invert(table);
    var scan, shortest := FirstFit(bits, keys, 0), ShortestMatch(bits, inv, 0);
    if scan.Some? {
      var u := keys[scan.value];
      var c :| c in table && table[c] == u;
      assert bits[..|u|] in inv;
      var k := shortest.value;
      var d := inv[bits[..k]];
      assert PrefixOf(table[d], bits);
      AtMostOneCodeFits(table, bits, c, d);
    }
  }

  /** Decoding the bits of a text, whatever follows them, with the inverted
      prefix-free table returns the text. */
  lemma {:induction false} DecodeInvertsEncode(text: string, table: map<char, Code>, tail: Code)
    requires PrefixFree(table)
    requires forall i :: 0 <= i < |text| ==> text[i] in table
    ensures Injective(table)
    ensures DecodeSymbols(EncodeText(text, table).value + tail, Invert(table), |text|) == Success(text)
  {
    PrefixFreeIsInjective(table);
    if text != [] {
      var code := table[text[0]];
      var more := EncodeText(text[1..], table).value + tail;
      var bits := EncodeText(text, table).value + tail;
      assert bits == code + more;
      MatchesOwnCode(table, text[0], more);
      DecodeInvertsEncode(text[1..], table, tail);
      DecodeStep(code + more, Invert(table), |text|, |code|, text[1..]);
      assert [text[0]] + text[1..] == text;
    }
  }

  /** One step of the decoder: when the match has length `k` and the rest
      of the bits decode to `rest`, the bits decode to the matched letter
      followed by `rest`. */
  lemma DecodeStep(bits: Code, inv: map<Code, char>, count: nat, k: nat, rest: string)
    requires count >= 1 && ShortestMatch(bits, inv, 0) == Some(k)
    requires DecodeSymbols(bits[k..], inv, count - 1) == Success(rest)
    ensures DecodeSymbols(bits, inv, count) == Success([inv[bits[..k]]] + rest)
  {
  }

  /** Whatever the decoder reads, the letters it returns encode to a prefix
      of the bits it read them from. */
  lemma {:induction false} DecodeIsSound(bits: Code, table: map<char, Code>, count: nat)
    requires Injective(table)
    requires DecodeSymbols(bits, Invert(table), count).Success?
    ensures EncodeText(DecodeSymbols(bits, Invert(table), count).value, table).Success?
    ensures PrefixOf(EncodeText(DecodeSymbols(bits, Invert(table), count).value, table).value, bits)
    decreases count
  {
    var inv := Invert(table);
    var s := DecodeSymbols(bits, inv, count).value;
    if count > 0 {
      var k := ShortestMatch(bits, inv, 0).value;
      var c := inv[bits[..k]];
      DecodeIsSound(bits[k..], table, count - 1);
      var rest := DecodeSymbols(bits[k..], inv, count - 1).value;
      assert s == [c] + rest;
      assert s[1..] == rest;
      var tailBits := EncodeText(rest, table).value;
      assert EncodeText(s, table).value == bits[..k] + tailBits;
      assert bits == bits[..k] + bits[k..];
    }
  }

  /** The file written for a text decodes, with the text's own code table
      and letter count, to the text. */
  lemma RoundTrip(text: string)
    ensures Injective(CodeTable(text))
    ensures DecodeFile(EncodeFileBin(text), CodeTable(text), |text|) == Success(text)
  {
    var table := CodeTable(text);
    var bytes := EncodeFileBin(text);
    var bits := EncodeText(text, table).value;
    var padding := Zeros(8 * |bytes| - |bits|);
    assert Unpack(bytes) == bits + padding;
    DecodeInvertsEncode(text, table, padding);
    assert DecodeFile(bytes, table, |text|) == DecodeSymbols(bits + padding, Invert(table), |text|);
  }
}
