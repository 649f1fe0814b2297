// The encoded bitstream: what HuffmanCoding.encode_arr builds by
// concatenation and what decode_arr reads back by greedy prefix matching
// (Huffman_RSA_Fernet.py:91-95, 126-137). A bit is a bool: false for the
// character '0', true for '1'.

module Bitstream {
  import opened HuffmanTree
  import opened CodeTable

  /** Every value of `arr` has an entry in `codes`. */
  ghost predicate AllCoded(codes: map<Symbol, seq<bool>>, arr: seq<Symbol>) {
    forall i | 0 <= i < |arr| :: arr[i] in codes
  }

  /** The codes of the values of `arr`, concatenated in input order. */
  function EncodeSeq(codes: map<Symbol, seq<bool>>, arr: seq<Symbol>): seq<bool>
    requires AllCoded(codes, arr)
  {
    if arr == [] then [] else codes[arr[0]] + EncodeSeq(codes, arr[1..])
  }

  /** What the decoding loop has produced when the bits run out: the symbols
      it emitted and the accumulator it was left holding. */
  datatype Decoded = Decoded(symbols: seq<Symbol>, leftover: seq<bool>)

  /** decode_arr's loop from accumulator `acc` over `bits`: each bit is
      appended to the accumulator, and when the accumulator is a code its
      symbol is emitted and the accumulator starts afresh. */
  function DecodeFrom(reverseMapping: map<seq<bool>, Symbol>, acc: seq<bool>, bits: seq<bool>): Decoded
    decreases |bits|
  {
    if bits == [] then Decoded([], acc)
    else
      var current := acc + [bits[0]];
      if current in reverseMapping then
        var rest := DecodeFrom(reverseMapping, [], bits[1..]);
        Decoded([reverseMapping[current]] + rest.symbols, rest.leftover)
      else DecodeFrom(reverseMapping, current, bits[1..])
  }

  /** decode_arr: the symbols emitted; the leftover accumulator is dropped. */
  function Decode(reverseMapping: map<seq<bool>, Symbol>, bits: seq<bool>): seq<Symbol> {
    DecodeFrom(reverseMapping, [], bits).symbols
  }

  /** A table the round trip works for: each code maps back to its symbol,
      no code is a prefix of another, and no code is empty. */
  ghost predicate Decodable(codes: map<Symbol, seq<bool>>, reverseMapping: map<seq<bool>, Symbol>) {
    && (forall s | s in codes :: codes[s] in reverseMapping && reverseMapping[codes[s]] == s)
    && PrefixFree(reverseMapping)
    && (forall c | c in reverseMapping :: c != [])
  }

  lemma {:induction false} EncodeSeqConcat(codes: map<Symbol, seq<bool>>, a: seq<Symbol>, b: seq<Symbol>)
    requires AllCoded(codes, a) && AllCoded(codes, b)
    ensures AllCoded(codes, a + b)
    ensures EncodeSeq(codes, a + b) == EncodeSeq(codes, a) + EncodeSeq(codes, b)
    decreases |a|
  {
    if a != [] {
      assert (a + b)[0] == a[0] && (a + b)[1..] == a[1..] + b;
      EncodeSeqConcat(codes, a[1..], b);
      assert AllCoded(codes, a + b) by {
        forall i | 0 <= i < |a + b| ensures (a + b)[i] in codes {
          if i < |a| {
            assert (a + b)[i] == a[i];
          } else {
            assert (a + b)[i] == b[i - |a|];
          }
        }
      }
    } else {
      assert a + b == b;
    }
  }

  /** Every symbol the decoder emits is a value of the reverse table. */
  lemma {:induction false} DecodedFromTable(reverseMapping: map<seq<bool>, Symbol>, acc: seq<bool>, bits: seq<bool>)
    ensures forall x | x in DecodeFrom(reverseMapping, acc, bits).symbols :: x in reverseMapping.Values
    decreases |bits|
  {
    if bits != [] {
      var current := acc + [bits[0]];
      if current in reverseMapping {
        DecodedFromTable(reverseMapping, [], bits[1..]);
      } else {
        DecodedFromTable(reverseMapping, current, bits[1..]);
      }
    }
  }

  /** Reading the rest of a code whose first k bits are already in the
      accumulator emits that code's symbol and empties the accumulator: no
      shorter accumulator matches, because the table is prefix-free. */
  lemma {:induction false} DecodeOneCode(reverseMapping: map<seq<bool>, Symbol>, c: seq<bool>, k: nat, rest: seq<bool>)
    requires PrefixFree(reverseMapping) && c in reverseMapping && k < |c|
    ensures DecodeFrom(reverseMapping, c[..k], c[k..] + rest)
      == var d := DecodeFrom(reverseMapping, [], rest); Decoded([reverseMapping[c]] + d.symbols, d.leftover)
    decreases |c| - k
  {
    var bits := c[k..] + rest;
    assert bits[0] == c[k] && bits[1..] == c[k + 1..] + rest;
    assert c[..k] + [c[k]] == c[..k + 1];
    if k + 1 == |c| {
      assert c[..k + 1] == c;
      assert c[k + 1..] + rest == rest;
    } else {
      assert c[..k + 1] <= c && c[..k + 1] != c;
      DecodeOneCode(reverseMapping, c, k + 1, rest);
    }
  }

  lemma AppendAssociates(a: seq<bool>, b: seq<bool>, c: seq<bool>)
    ensures (a + b) + c == a + (b + c)
  {
  }

  /** With one-bit codes the stream has one bit per value. */
  lemma {:induction false} UnitCodesEncodeLength(codes: map<Symbol, seq<bool>>, arr: seq<Symbol>)
    requires AllCoded(codes, arr)
    requires forall s | s in codes :: |codes[s]| == 1
    ensures |EncodeSeq(codes, arr)| == |arr|
    decreases |arr|
  {
    if arr != [] {
      UnitCodesEncodeLength(codes, arr[1..]);
    }
  }

  /** Decoding the encoding of `arr` followed by any `tail` gives back `arr`,
      then whatever `tail` decodes to. */
  lemma {:induction false} DecodeEncodeAppend(codes: map<Symbol, seq<bool>>, reverseMapping: map<seq<bool>, Symbol>,
                                              arr: seq<Symbol>, tail: seq<bool>)
    requires Decodable(codes, reverseMapping) && AllCoded(codes, arr)
    ensures DecodeFrom(reverseMapping, [], EncodeSeq(codes, arr) + tail)
      == var d := DecodeFrom(reverseMapping, [], tail); Decoded(arr + d.symbols, d.leftover)
    decreases |arr|
  {
    if arr == [] {
      assert EncodeSeq(codes, arr) + tail == tail;
    } else {
      var c, rest := codes[arr[0]], EncodeSeq(codes, arr[1..]);
      var more := rest + tail;
      assert EncodeSeq(codes, arr) == c + rest;
      AppendAssociates(c, rest, tail);
      assert c[..0] == [] && c[0..] == c;
      DecodeOneCode(reverseMapping, c, 0, more);
      var first := DecodeFrom(reverseMapping, [], more);
      DecodeEncodeAppend(codes, reverseMapping, arr[1..], tail);
      var d := DecodeFrom(reverseMapping, [], tail);
      assert first == Decoded(arr[1..] + d.symbols, d.leftover);
      assert [arr[0]] + (arr[1..] + d.symbols) == arr + d.symbols;
    }
  }

  /** decode_arr(encode_arr(arr)) == arr, with nothing left over, whenever the
      codes are non-empty, prefix-free and map back to their symbols. */
  lemma RoundTrip(codes: map<Symbol, seq<bool>>, reverseMapping: map<seq<bool>, Symbol>, arr: seq<Symbol>)
    requires Decodable(codes, reverseMapping) && AllCoded(codes, arr)
    ensures DecodeFrom(reverseMapping, [], EncodeSeq(codes, arr)) == Decoded(arr, [])
  {
    DecodeEncodeAppend(codes, reverseMapping, arr, []);
    assert EncodeSeq(codes, arr) + [] == EncodeSeq(codes, arr);
  }

  /** Bits j..k of a code, read with the first j already accumulated, emit
      nothing while k is short of the whole code. */
  lemma {:induction false} PartialCode(reverseMapping: map<seq<bool>, Symbol>, c: seq<bool>, j: nat, k: nat)
    requires PrefixFree(reverseMapping) && c in reverseMapping && j <= k < |c|
    ensures DecodeFrom(reverseMapping, c[..j], c[j..k]) == Decoded([], c[..k])
    decreases k - j
  {
    if j < k {
      assert c[j..k][0] == c[j] && c[j..k][1..] == c[j + 1..k];
      assert c[..j] + [c[j]] == c[..j + 1];
      assert c[..j + 1] <= c && c[..j + 1] != c;
      PartialCode(reverseMapping, c, j + 1, k);
    } else {
      assert c[j..k] == [];
    }
  }

  /** A stream cut short inside a code decodes, without any error, to the
      symbols before the cut: the unmatched bits are silently dropped. */
  lemma TruncatedStream(codes: map<Symbol, seq<bool>>, reverseMapping: map<seq<bool>, Symbol>,
                        arr: seq<Symbol>, c: seq<bool>, k: nat)
    requires Decodable(codes, reverseMapping) && AllCoded(codes, arr)
    requires c in reverseMapping && k < |c|
    ensures DecodeFrom(reverseMapping, [], EncodeSeq(codes, arr) + c[..k]) == Decoded(arr, c[..k])
    ensures Decode(reverseMapping, EncodeSeq(codes, arr) + c[..k]) == arr
  {
    DecodeEncodeAppend(codes, reverseMapping, arr, c[..k]);
    PartialCode(reverseMapping, c, 0, k);
    assert c[0..k] == c[..k];
    assert arr + [] == arr;
  }

  /** With a table whose codes are all empty (the one-symbol alphabet, whose
      root leaf gets the code ""), every input encodes to no bits at all, and
      decoding no bits gives nothing back. */
  lemma {:induction false} EmptyCodesEncodeNothing(codes: map<Symbol, seq<bool>>, reverseMapping: map<seq<bool>, Symbol>, arr: seq<Symbol>)
    requires AllCoded(codes, arr)
    requires forall s | s in codes :: codes[s] == []
    ensures EncodeSeq(codes, arr) == []
    ensures Decode(reverseMapping, EncodeSeq(codes, arr)) == []
    decreases |arr|
  {
    if arr != [] {
      EmptyCodesEncodeNothing(codes, reverseMapping, arr[1..]);
    }
  }
}
