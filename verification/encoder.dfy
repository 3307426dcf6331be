/** The bit text of `encode_file_bin`: the codes of the letters of the text,
    concatenated in text order. */
module Encoder {
  import opened Entries
  import opened Results

  /** Looks up every letter of `text` in `table` and concatenates the codes;
      the first letter without a code stops the encoding, where the source's
      dictionary lookup would raise. */
  function EncodeText(text: string, table: map<char, Code>): (r: Result<Code>)
    ensures r.Success? <==> forall i :: 0 <= i < |text| ==> text[i] in table
    ensures r.Failure? ==> exists i :: && 0 <= i < |text| && text[i] !in table
                                      && r.error == MissingCode(text[i])
                                      && forall j :: 0 <= j < i ==> text[j] in table
  {
    if text == [] then Success([])
    else if text[0] !in table then Failure(MissingCode(text[0]))
    else
      var rest := EncodeText(text[1..], table);
      if rest.Failure? then
        ghost var i :| && 0 <= i < |text| - 1 && text[1..][i] !in table
                       && rest.error == MissingCode(text[1..][i])
                       && forall j :: 0 <= j < i ==> text[1..][j] in table;
        assert forall j :: 0 <= j < i + 1 ==> text[j] in table by {
          forall j | 0 <= j < i + 1 ensures text[j] in table {
            if j > 0 {
              assert text[j] == text[1..][j - 1];
            }
          }
        }
        rest
      else
        Success(table[text[0]] + rest.value)
  }

  /** Encoding is compositional: the bits of `a + b` are the bits of `a`
      followed by the bits of `b`. */
  lemma {:induction false} EncodeConcat(a: string, b: string, table: map<char, Code>)
    requires forall c :: c in a ==> c in table
    requires forall c :: c in b ==> c in table
    ensures EncodeText(a + b, table).Success?
    ensures EncodeText(a + b, table).value == EncodeText(a, table).value + EncodeText(b, table).value
  {
    assert forall i :: 0 <= i < |a + b| ==> (a + b)[i] in a || (a + b)[i] in b;
    if a != [] {
      assert (a + b)[1..] == a[1..] + b;
      EncodeConcat(a[1..], b, table);
    } else {
      assert a + b == b;
    }
  }
}
