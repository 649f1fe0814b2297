// What HuffmanCoding.compress builds from an input (Huffman_RSA_Fernet.py:
// 111-120), and the properties of the code table and of the whole
// compress / pack / unpack / decompress path that follow from it.

module CodecFacts {
  import opened HuffmanTree
  import opened HeapModel
  import opened Frequency
  import opened CodeTable
  import opened Bitstream
  import opened Packing

  /** `arr` holds at least two different values. */
  ghost predicate TwoSymbols(arr: seq<Symbol>) {
    exists i, j | 0 <= i < |arr| && 0 <= j < |arr| :: arr[i] != arr[j]
  }

  /** `root` is a code tree of `arr` as merge_nodes leaves it: merged nodes
      carry the sum of their children, there is one leaf per distinct value
      of `arr`, each carrying that value's count, and the root carries the
      length of `arr`. */
  ghost predicate HuffmanTreeOf(root: Tree, arr: seq<Symbol>) {
    && WellFormed(root)
    && LeavesCarry(root, multiset(arr))
    && (forall s :: LeafSyms(root)[s] == if s in arr then 1 else 0)
    && root.freq == |arr|
  }

  /** A single tree that keeps the total frequency and the leaves of the heap
      make_heap builds from the frequency table of a non-empty `arr` is a
      code tree of `arr`. */
  lemma MergedRoot(frequency: FrequencyDict, arr: seq<Symbol>, root: Tree)
    requires Counts(frequency, arr)
    requires WellFormed(root) && LeavesCarry(root, multiset(arr))
    requires SumFreq([root]) == SumFreq(Leaves(frequency.order, frequency.count))
    requires ForestSyms([root]) == ForestSyms(Leaves(frequency.order, frequency.count))
    ensures HuffmanTreeOf(root, arr)
  {
    var order, count := frequency.order, frequency.count;
    assert [root][..0] == [];
    assert root.freq == |arr| by {
      LeavesFacts(order, count, arr);
      CountsSumToLength(frequency, arr);
      assert SumFreq([root]) == root.freq;
    }
    assert LeafSyms(root) == multiset(order) by {
      LeavesFacts(order, count, arr);
      assert ForestSyms([root]) == LeafSyms(root);
    }
    forall s ensures LeafSyms(root)[s] == if s in arr then 1 else 0 {
      KeysOnce(frequency, arr, s);
    }
  }

  lemma {:induction false} LeafSymsNonEmpty(t: Tree)
    ensures |LeafSyms(t)| >= 1
  {
    InternalNodesCount(t);
  }

  /** The shape of the tree: the root is a merged node exactly when the input
      has two different values, and there is one merged node fewer than
      there are distinct values. */
  lemma TreeShape(root: Tree, arr: seq<Symbol>)
    requires HuffmanTreeOf(root, arr)
    ensures DistinctSyms(root)
    ensures forall s :: s in LeafSyms(root) <==> s in arr
    ensures root.Node? <==> TwoSymbols(arr)
    ensures InternalCount(root) + 1 == |LeafSyms(root)|
    ensures LeafSum(root) == |arr|
  {
    InternalNodesCount(root);
    FreqIsLeafSum(root);
    assert forall s :: LeafSyms(root)[s] <= 1;
    match root
    case Node(_, l, r) =>
      DistinctChildren(root);
      LeafSymsNonEmpty(l);
      LeafSymsNonEmpty(r);
      var x :| x in LeafSyms(l);
      var y :| y in LeafSyms(r);
      assert x in LeafSyms(root) && y in LeafSyms(root);
      var i :| 0 <= i < |arr| && arr[i] == x;
      var j :| 0 <= j < |arr| && arr[j] == y;
      assert arr[i] != arr[j];
    case Leaf(s, _) =>
      forall i | 0 <= i < |arr| ensures arr[i] == s {
        assert LeafSyms(root)[arr[i]] == 1;
      }
  }

  /** The table make_codes writes from such a tree: codes for exactly the
      values of the input, the inverse reverse table, prefix-free; with two
      or more values every code is non-empty and decoding the encoding gives
      the input back; with one value its code is empty and every input
      encodes to nothing. */
  lemma CompressedTable(root: Tree, arr: seq<Symbol>)
    requires HuffmanTreeOf(root, arr)
    ensures var codes, reverseMapping := CodesOf(root, []), ReverseOf(root, []);
      && (forall s :: s in codes <==> s in arr)
      && Inverse(codes, reverseMapping)
      && PrefixFree(reverseMapping)
      && AllCoded(codes, arr)
      && (TwoSymbols(arr) ==> Decodable(codes, reverseMapping)
                              && Decode(reverseMapping, EncodeSeq(codes, arr)) == arr)
      && (!TwoSymbols(arr) ==> EncodeSeq(codes, arr) == [])
  {
    var codes, reverseMapping := CodesOf(root, []), ReverseOf(root, []);
    TreeShape(root, arr);
    assert forall s :: s in codes <==> s in arr by {
      forall s ensures s in codes <==> s in arr {
        CodesArePaths(root, s);
      }
    }
    assert AllCoded(codes, arr) by {
      forall i | 0 <= i < |arr| ensures arr[i] in codes {
        CodesArePaths(root, arr[i]);
      }
    }
    TableIsInverse(root);
    TableIsPrefixFree(root);
    if root.Node? {
      assert Decodable(codes, reverseMapping) by {
        CodeLengths(root);
      }
      RoundTrip(codes, reverseMapping, arr);
    } else {
      assert forall s | s in codes :: codes[s] == [] by {
        CodeLengths(root);
      }
      EmptyCodesEncodeNothing(codes, reverseMapping, arr);
    }
  }

  /** With two or more values the encoded stream is not empty, so packing it
      is defined. */
  lemma EncodedNonEmpty(root: Tree, arr: seq<Symbol>)
    requires HuffmanTreeOf(root, arr) && TwoSymbols(arr)
    ensures AllCoded(CodesOf(root, []), arr)
    ensures |EncodeSeq(CodesOf(root, []), arr)| > 0
  {
    CompressedTable(root, arr);
    var codes := CodesOf(root, []);
    assert codes[arr[0]] in ReverseOf(root, []);
    assert EncodeSeq(codes, arr) == codes[arr[0]] + EncodeSeq(codes, arr[1..]);
  }

  /** The whole path with the corrected padding count: encode, pack into
      bytes, read the bytes' bits, strip the padding, decode. It gives back
      the input for every input with two or more values. */
  lemma CorrectedPipeline(root: Tree, arr: seq<Symbol>)
    requires HuffmanTreeOf(root, arr) && TwoSymbols(arr)
    ensures AllCoded(CodesOf(root, []), arr)
    ensures var encoded := EncodeSeq(CodesOf(root, []), arr);
      |encoded| > 0 &&
      Decode(ReverseOf(root, []), DropPrefix(BytesToBits(Pack(encoded)), PadLength(|encoded|))) == arr
  {
    CompressedTable(root, arr);
    EncodedNonEmpty(root, arr);
    UnpackRoundTrip(EncodeSeq(CodesOf(root, []), arr));
  }

  /** A merged root over two values has two leaves as children, so both
      codes are one bit long. */
  lemma TwoValueCodes(root: Tree)
    requires root.Node? && |LeafSyms(root)| == 2
    ensures forall s | s in CodesOf(root, []) :: |CodesOf(root, [])[s]| == 1
  {
    var l, r := root.left, root.right;
    LeafSymsNonEmpty(l);
    LeafSymsNonEmpty(r);
    InternalNodesCount(l);
    InternalNodesCount(r);
    assert l.Leaf? && r.Leaf?;
    assert [] + [false] == [false] && [] + [true] == [true];
    assert CodesOf(root, []) == map[l.sym := [false]] + map[r.sym := [true]];
  }

  /** Eight values of two kinds make an eight-bit stream, exactly one byte:
      str_pad is 8 and stripping it leaves nothing to decode. */
  lemma {:induction false} OneByteLost(root: Tree, arr: seq<Symbol>)
    requires HuffmanTreeOf(root, arr) && TwoSymbols(arr)
    requires |LeafSyms(root)| == 2 && |arr| == 8
    ensures AllCoded(CodesOf(root, []), arr)
    ensures var encoded := EncodeSeq(CodesOf(root, []), arr);
      && |encoded| == 8
      && StrPad(|encoded|) == 8
      && Decode(ReverseOf(root, []), encoded[8..]) == []
      && DropPrefix(BytesToBits(Pack(encoded)), StrPad(|encoded|)) == []
  {
    TreeShape(root, arr);
    TwoValueCodes(root);
    var codes := CodesOf(root, []);
    CompressedTable(root, arr);
    UnitCodesEncodeLength(codes, arr);
    var encoded := EncodeSeq(codes, arr);
    StrPadAligned(encoded);
    assert encoded[8..] == [];
  }

  /** The script on eight pixels alternating between two values, 0 1 0 1
      0 1 0 1: both codes are one bit long, so the stream is exactly one
      byte, str_pad is 8, and all eight bits are stripped; what is decoded
      is empty, not the input. */
  lemma AlignedStreamLost(root: Tree, arr: seq<Symbol>)
    requires |arr| == 8 && forall i | 0 <= i < 8 :: arr[i] == i % 2
    requires HuffmanTreeOf(root, arr)
    ensures TwoSymbols(arr)
    ensures AllCoded(CodesOf(root, []), arr)
    ensures var encoded := EncodeSeq(CodesOf(root, []), arr);
      && |encoded| == 8
      && StrPad(|encoded|) == 8
      && Decode(ReverseOf(root, []), encoded[8..]) == []
      && DropPrefix(BytesToBits(Pack(encoded)), StrPad(|encoded|)) == []
  {
    assert TwoSymbols(arr) by {
      assert arr[0] != arr[1];
    }
    assert |LeafSyms(root)| == 2 by {
      forall s ensures LeafSyms(root)[s] == multiset{0, 1}[s] {
        assert arr[0] == 0 && arr[1] == 1;
        assert s in arr <==> s == 0 || s == 1;
      }
      assert LeafSyms(root) == multiset{0, 1};
    }
    OneByteLost(root, arr);
  }
}
