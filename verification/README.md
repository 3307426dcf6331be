# Huffman codec of `HuffmanCoding`, modelled in Dafny

This project models the Huffman codec in the `HuffmanCoding` class of
`encode.py`. The codec runs in six steps:

1. The frequency table (`frequency_alphabet`) lists each distinct letter of
   the text once, with its number of occurrences.
2. The canonical sort (`sorted_alphabet`) orders the entries by descending
   count. Within one count, leaves come before groups, leaves go by
   descending code point, and groups keep their input order.
3. The merge loop (`binary_list`) replaces the last two entries with a
   group counted the sum of their counts. It sorts again after each merge
   and stops at two entries or fewer.
4. The code walk (`binary_alphabet`) appends `1` for the first entry of a
   pair and `0` for the second. A leaf stores the bits gathered on the way
   down.
5. Packing (`encode_file_bin`) concatenates the codes in text order. It
   packs them into bytes most significant bit first and pads the last byte
   with zeros.
6. Decoding (`decode`) expands every byte to eight bits and inverts the
   code table. It then reads letters off the front of the bits by matching
   codes.

Modelling choices:
- An entry is `Leaf(ch, count)` or `Group(first, second, count)`. This
  stands for the source's `(letter, count)` and `([first, second], count)`
  tuples, which it tells apart by runtime type.
- Codes are `seq<bool>`, with `true` for the character `1`. Bytes are
  naturals below 256.
- The text is a parameter. Reading it from a file is not modelled.
- Decoding reads a known number of letters. It returns an explicit error
  when no code matches or when the bits run out.

The modules follow the codec's structure:
- `Entries` holds the datatype, leaf multisets and count sums.
- `Frequency` is step 1.
- `CanonicalSort` is step 2.
- `TreeBuilder` is step 3.
- `CodeAssigner` is step 4.
- `BitPacking` is step 5 and the byte expansion of step 6.
- `Encoder` and `Decoder` build the bit text and read it back.
- `Codec` ties everything together and holds the round-trip theorems.
- `Results` holds the `Option`, `Result` and fault types.

Points where the code behaves differently from what one might expect:
- The branch at encode.py:195-196 would make a group counted 0. It never
  runs, because the loop guard at encode.py:191 is `len(alphabet) > 2`.
  Every group carries the sum of its children's counts (`WellCounted`), and
  the loop returns two entries, not one root.
- The program never hands the codec an empty text: `path_to_string` applies
  `reduce` to the lines of the file (encode.py:95), which raises on an empty
  file. The model's steps accept an empty text all the same. It yields an
  empty table and a single zero byte, which is what the codec steps would
  produce if they were reached.
- An empty bit text still produces one byte: the last-octet step at
  encode.py:302-303 pads it to eight zeros.

## Model

| member | source | states |
|---|---|---|
| `Frequency.Tally` | encode.py:120-124 | one more occurrence of a letter adds exactly one to the total count and adds the letter to the table's letters only when it was absent |
| `Frequency.TallyBumps` | encode.py:121-124 | the letter's entry after the update is counted one more than before, or one when it was new |
| `Frequency.FrequencyAlphabet` | encode.py:118-128 | every entry is a leaf counted its letter's number of occurrences; each letter of the text appears exactly once and no other letter appears; the counts sum to the text length |
| `CanonicalSort.MaxCount` | encode.py:148 | the largest count of a non-empty list bounds every count and is the count of some entry |
| `CanonicalSort.SortDescending` | encode.py:157-159 | the letters of one count are rearranged, not changed, into non-increasing code-point order |
| `CanonicalSort.Bucket` | encode.py:157-171 | the bucket of one count holds exactly the entries of that count, each as often as in the input, in canonical order |
| `CanonicalSort.SortedAlphabet` | encode.py:148-171 | the result is a permutation of the input in canonical order: counts non-increasing; within one count, leaves before groups and leaves by non-increasing code point |
| `CanonicalSort.SortKeepsGroupOrder` | encode.py:161-171 | for every count, the groups of that count appear in the output in the same relative order as in the input |
| `CanonicalSort.CanonicalIsFixpoint` | encode.py:155-171 | the sort leaves a list that is already in canonical order unchanged |
| `CanonicalSort.SortIsIdempotent` | encode.py:155-171 | sorting a sorted list returns it unchanged |
| `TreeBuilder.LastPair` | encode.py:193-198 | the new group has the last two entries as its children and stands for exactly what they stood for: the counts of the kept entries plus the group's count give the list's total, their leaves plus the group's leaves give the list's leaves, and the group is counted the sum of its children exactly when they are |
| `TreeBuilder.MergeLastTwo` | encode.py:193-202 | one merge keeps the first n-2 entries, removes the last two, adds one group holding them, and re-sorts; the length drops by one, and the total count and the leaves are unchanged |
| `TreeBuilder.BuildTree` | encode.py:191-205 | the loop ends with min(n, 2) entries, keeps the total count and the leaves, keeps canonical order, and every group is counted the sum of its children |
| `TreeBuilder.BinaryList` | encode.py:190-205 | the binary list of a text has min(d, 2) entries for d distinct letters; its leaves are exactly the letters of the text, once each; its counts sum to the text length |
| `CodeAssigner.LevelCodes` | encode.py:229-245 | the codes of a level cover exactly the letters of its entries; each code extends the bits gathered so far and is strictly longer |
| `CodeAssigner.EntryCodes` | encode.py:229-245 | the codes below an entry cover exactly its letters, all extend the bits gathered so far, are strictly longer than them below a group, and no code is a prefix of another |
| `CodeAssigner.MergedPrefixFree` | encode.py:234-245 | codes continuing with 1 and codes continuing with 0 from the same point never prefix one another |
| `CodeAssigner.BinaryAlphabet` | encode.py:207-247 | the table has a code exactly for each letter of the list; every code is non-empty; for a list of at most two entries the table is prefix-free |
| `CodeAssigner.CodeLeadsToLeaf` | encode.py:229-245 | a letter's code, read as turns (1 = first, 0 = second), leads from the entry down to a leaf holding that letter |
| `CodeAssigner.CodesFollowTree` | encode.py:229-245 | in a binary list of one or two entries, the first bit of a code picks entry 0 (bit 1) or entry 1 (bit 0), and the remaining bits lead to the letter's leaf |
| `Codec.LoneLetterGetsOne` | encode.py:190-247 | a non-empty text made of a single distinct letter gets the table that maps that letter to "1" and nothing else |
| `Codec.CodeTable` | encode.py:224-247 | the code table of a text has a code exactly for the letters of the text; every code is non-empty; the table is prefix-free |
| `Encoder.EncodeText` | encode.py:286-289 | encoding succeeds exactly when every letter has a code; otherwise it fails naming the first letter without one |
| `Encoder.EncodeConcat` | encode.py:288-289 | the bits of a concatenation are the bits of the first part followed by the bits of the second |
| `BitPacking.Value` | encode.py:299 | the number read from L bits, most significant first, is below 2^L |
| `BitPacking.NumeralValue` | encode.py:465 | the binary numeral of v reads back as v and starts with 1 unless v is 0 |
| `BitPacking.ByteBits` | encode.py:465 | the expansion of a byte has eight bits and reads back as the byte |
| `BitPacking.ByteBitsOfValue` | encode.py:296-299 | reading eight bits as a number gives a byte, and expanding that byte gives the eight bits back |
| `BitPacking.Octet` | encode.py:296-299 | expanding the byte packed from eight bits gives the eight bits |
| `BitPacking.Pack` | encode.py:294-303 | a bit text of length L >= 1 packs into ceil(L/8) bytes and an empty one into one byte; expanding the bytes gives the bits followed by zeros, and there are (8 - L mod 8) mod 8 of them when L >= 1 |
| `BitPacking.EmptyPacksToZeroByte` | encode.py:302-303 | an empty bit text packs into the single byte 0 |
| `BitPacking.Unpack` | encode.py:465 | the expansion of a file has eight bits per byte |
| `BitPacking.UnpackReadsBytes` | encode.py:465 | byte i of the file becomes bits 8i to 8i+7 of the bit text, its eight bits most significant first, so the bit text is eight times as long as the file |
| `Codec.EncodeFileBin` | encode.py:285-303 | every letter of the text has a code; the file has ceil(L/8) bytes for a bit text of length L >= 1; expanding it gives the bit text followed by zero padding |
| `Decoder.Invert` | encode.py:471 | the inverted table maps each code back to its letter and holds no other codes |
| `Codec.PrefixFreeIsInjective` | encode.py:471 | in a prefix-free table no two letters share a code, so inverting it loses nothing |
| `Decoder.ShortestMatch` | encode.py:494-497 | the result is the shortest prefix of the bits that is a code; no result means that no prefix is a code |
| `Decoder.FirstFit` | encode.py:494-497 | the scan over the codes in a given order stops at the first code that begins the bits; no result means that no code begins them |
| `Codec.ScanAgreesWithShortest` | encode.py:494-497 | for a prefix-free table and any order of its codes, the scan finds a code exactly when the shortest match does, and the code it finds has the length of the shortest match |
| `Decoder.DecodeSymbols` | encode.py:490-502 | a successful decoding has exactly the requested number of letters, each from the table; failures report only a missing match or the end of the bits |
| `Codec.DecodeFile` | encode.py:465-502 | decoding a file returns the requested number of letters, each with a code in the table |
| `Codec.AtMostOneCodeFits` | encode.py:494-497 | in a prefix-free table, two codes that both begin the same bits belong to the same letter |
| `Codec.MatchesOwnCode` | encode.py:494-502 | with a prefix-free table, the only code that begins a letter's code followed by anything is that letter's own code, and the decoder's match there has exactly that code's length |
| `Codec.DecodeInvertsEncode` | encode.py:494-502 | decoding the bits of a text, whatever bits follow them, returns the text |
| `Codec.DecodeIsSound` | encode.py:494-502 | the letters a decoding returns re-encode to a prefix of the bits they were read from |
| `Codec.RoundTrip` | encode.py:437-502 | the file written for a text decodes back to the text, given the text's own code table and letter count |

## Left out

- File handling is not modelled: `path_to_string`, `set_text`, `set_dictionary`, the file-name slicing in `__init__`, and every `open`, `write` and `close`. The text and the bytes are parameters and results instead.
- `compression_ratio` and `average_character_size` are left out. They depend on file sizes, floating-point division and a module-level global.
- The decoder's trimming of the last 32 bits is left out (encode.py:466-488). So is the early exit on fewer than 8 remaining bits (encode.py:492). Both guess where the padding starts and can drop or add letters at the end. The model instead stops after a given letter count.
- `export_binary_alphabet`, `export_freq_alphabet` and `encode_file_txt` are left out. They write tables or '0'/'1' text to files and compute nothing new. So is the driver code at the end of the file.
- The merge loop's `len(alphabet) == 2` branch (encode.py:195-196) is left out. The loop guard means it can never run.
- Decoder.DecodeSymbols: where no code matches, the source's loop spins forever (encode.py:490-502). The model returns `NoMatchingCode` instead, or `EndOfStream` when no bits are left.
- Decoder.ShortestMatch: the source tries the codes in dictionary order and takes the first that fits (`Decoder.FirstFit`). The decoder of the model takes the shortest fitting prefix. For a prefix-free table the two agree, whatever the order (`Codec.ScanAgreesWithShortest`). For other tables they can differ.
- BitPacking.Unpack: its own contract gives only the length. Which bits each byte becomes is stated by `BitPacking.UnpackReadsBytes`.
- Decoder.Invert: it requires that no two letters share a code. For a shared code, the source keeps the letter that comes last in dictionary insertion order, an order a map does not carry. Code tables built from a text never share codes (`Codec.PrefixFreeIsInjective`).
- Codec.DecodeFile: it requires distinct codes, for the same reason as `Decoder.Invert`.
- CodeAssigner.BinaryAlphabet: prefix-freedom is stated only for lists of at most two entries. For a longer list the source gives bit 0 to every entry after the first, so the table is not prefix-free. The merge loop never produces such a list.
- Frequency.FrequencyAlphabet: the contract does not state that entries appear in order of first occurrence. The sort that follows orders leaves by count and letter alone.
- `binary_alphabet` computes a bit with `list.index(element)`. The model uses the entry's position instead. The two agree because the two entries of a pair are never equal: their leaves are different letters.
- Encoder.EncodeText: a letter without a code is reported as `MissingCode`; the source would raise `KeyError`. Tables built from the same text always cover it (`Codec.EncodeFileBin`).
