// The HuffmanCoding class of Huffman_RSA_Fernet.py (lines 36-143) and the
// top-level script that compresses, packs, unpacks and decompresses an
// image's pixel values (lines 156-172, 247, 255-257).

module Huffman {
  import opened Outcomes
  import opened HuffmanTree
  import opened HeapModel
  import opened Frequency
  import opened CodeTable
  import opened Bitstream
  import opened Packing
  import opened CodecFacts

  /** The coder's state: the heap of nodes and the two code tables. Python
      lists `heap`; here it is a sequence whose order carries no meaning,
      popped by extract-min. */
  class HuffmanCoding {
    var heap: seq<Tree>
    var codes: map<Symbol, seq<bool>>
    var reverseMapping: map<seq<bool>, Symbol>

    /** Every node in the heap is well formed: each merged node's frequency
        is the sum of its children's. */
    ghost predicate Valid()
      reads this
    {
      forall t | t in heap :: WellFormed(t)
    }

    constructor ()
      ensures Valid()
      ensures heap == [] && codes == map[] && reverseMapping == map[]
    {
      heap := [];
      codes := map[];
      reverseMapping := map[];
    }

    /** heapq.heappush. */
    method HeapPush(node: Tree)
      requires Valid() && WellFormed(node)
      modifies this
      ensures Valid()
      ensures heap == old(heap) + [node]
      ensures SumFreq(heap) == SumFreq(old(heap)) + node.freq
      ensures ForestSyms(heap) == ForestSyms(old(heap)) + LeafSyms(node)
      ensures codes == old(codes) && reverseMapping == old(reverseMapping)
    {
      heap := heap + [node];
      assert heap[..|heap| - 1] == old(heap);
    }

    /** heapq.heappop: removes and returns a node of least frequency. Which
        of several such nodes it picks is left open, as heapq's tie-breaking
        depends on the heap's layout. */
    method HeapPop() returns (node: Tree)
      requires Valid() && heap != []
      modifies this
      ensures Valid()
      ensures node in old(heap) && WellFormed(node)
      ensures forall t | t in old(heap) :: !Less(t, node)
      ensures multiset(heap) + multiset{node} == multiset(old(heap))
      ensures |heap| + 1 == |old(heap)|
      ensures forall t | t in heap :: t in old(heap)
      ensures SumFreq(heap) + node.freq == SumFreq(old(heap))
      ensures ForestSyms(heap) + LeafSyms(node) == ForestSyms(old(heap))
      ensures codes == old(codes) && reverseMapping == old(reverseMapping)
    {
      MinimumExists(heap);
      var i :| 0 <= i < |heap| && IsMinAt(heap, i);
      node := heap[i];
      RemoveAtSum(heap, i);
      RemoveAtSyms(heap, i);
      heap := RemoveAt(heap, i);
      forall t | t in heap ensures t in old(heap) {
        assert t in multiset(heap);
      }
    }

    /** make_frequency_dict: counts the occurrences of each value, keeping
        the keys in the order they first occur. */
    method MakeFrequencyDict(arr: seq<Symbol>) returns (frequency: FrequencyDict)
      ensures Counts(frequency, arr)
      ensures frequency == FrequencyDict(FirstOccurrences(arr), Histogram(arr))
    {
      var order: seq<Symbol> := [];
      var count: map<Symbol, nat> := map[];
      var i := 0;
      while i < |arr|
        invariant 0 <= i <= |arr|
        invariant Scanned(arr[..i], order, count)
      {
        var value := arr[i];
        assert arr[..i + 1] == arr[..i] + [value];
        ScanStep(arr[..i], value, order, count);
        if value !in count {
          order := order + [value];
          count := count[value := 0];
        }
        count := count[value := count[value] + 1];
        i := i + 1;
      }
      assert arr[..|arr|] == arr;
      frequency := FrequencyDict(order, count);
      FirstOccurrencesCount(arr);
    }

    /** make_heap: pushes one leaf per key of the table, in the table's order. */
    method MakeHeap(frequency: FrequencyDict)
      requires Valid() && frequency.Valid()
      modifies this
      ensures Valid()
      ensures heap == old(heap) + Leaves(frequency.order, frequency.count)
      ensures codes == old(codes) && reverseMapping == old(reverseMapping)
    {
      var order, count := frequency.order, frequency.count;
      var i := 0;
      while i < |order|
        invariant 0 <= i <= |order|
        invariant Valid()
        invariant heap == old(heap) + Leaves(order[..i], count)
        invariant codes == old(codes) && reverseMapping == old(reverseMapping)
      {
        var key := order[i];
        var node := Leaf(key, count[key]);
        assert order[..i + 1][..i] == order[..i];
        HeapPush(node);
        i := i + 1;
      }
      assert order[..|order|] == order;
    }

    /** merge_nodes: while more than one node is left, pops the two least
        frequent and pushes a merged node whose frequency is their sum, the
        first popped on the left. Each round shrinks the heap by one, and
        keeps the total frequency and the leaves of the heap. `counts` is
        a proof-only parameter: what the leaves carry stays as it was. */
    method MergeNodes(ghost counts: multiset<Symbol>) returns (ghost steps: seq<seq<Tree>>, ghost merges: seq<(Tree, Tree)>)
      requires Valid() && forall t | t in heap :: LeavesCarry(t, counts)
      modifies this
      ensures Valid() && forall t | t in heap :: LeavesCarry(t, counts)
      ensures MergeTrace(old(heap), steps, merges, heap)
      ensures |heap| == if old(heap) == [] then 0 else 1
      ensures SumFreq(heap) == SumFreq(old(heap))
      ensures ForestSyms(heap) == ForestSyms(old(heap))
      ensures codes == old(codes) && reverseMapping == old(reverseMapping)
    {
      steps, merges := [heap], [];
      while |heap| > 1
        invariant Valid() && forall t | t in heap :: LeavesCarry(t, counts)
        invariant MergeTrace(old(heap), steps, merges, heap)
        invariant old(heap) != [] ==> heap != []
        invariant SumFreq(heap) == SumFreq(old(heap))
        invariant ForestSyms(heap) == ForestSyms(old(heap))
        invariant codes == old(codes) && reverseMapping == old(reverseMapping)
        decreases |heap|
      {
        ghost var before := heap;
        var node1 := HeapPop();
        assert LeavesCarry(node1, counts);
        ghost var between := heap;
        var node2 := HeapPop();
        assert LeavesCarry(node2, counts);
        ghost var rest := heap;
        var merged := Node(node1.freq + node2.freq, node1, node2);
        HeapPush(merged);
        assert SumFreq(heap) == SumFreq(before) by {
          assert merged.freq == node1.freq + node2.freq;
        }
        assert ForestSyms(heap) == ForestSyms(before) by {
          MergeKeeps(ForestSyms(before), ForestSyms(between), ForestSyms(rest), ForestSyms(heap), LeafSyms(node1), LeafSyms(node2));
        }
        assert MergeTrace(old(heap), steps + [heap], merges + [(node1, node2)], heap) by {
          PopPopPush(before, between, rest, heap, node1, node2);
          TraceExtend(old(heap), steps, merges, before, node1, node2, heap);
        }
        steps, merges := steps + [heap], merges + [(node1, node2)];
        assert |heap| < |before|;
        assert Valid();
        assert forall t | t in heap :: LeavesCarry(t, counts);
      }
    }

    /** make_codes_helper: writes the code of every leaf below `root`,
        `currentCode` followed by the path to the leaf, into both tables. */
    method MakeCodesHelper(root: Tree, currentCode: seq<bool>)
      modifies this
      ensures heap == old(heap)
      ensures codes == old(codes) + CodesOf(root, currentCode)
      ensures reverseMapping == old(reverseMapping) + ReverseOf(root, currentCode)
      decreases root
    {
      match root
      case Leaf(value, _) =>
        codes := codes[value := currentCode];
        reverseMapping := reverseMapping[currentCode := value];
      case Node(_, left, right) =>
        var c0, r0 := codes, reverseMapping;
        MakeCodesHelper(left, currentCode + [false]);
        MakeCodesHelper(right, currentCode + [true]);
        UnionAssociates(c0, CodesOf(left, currentCode + [false]), CodesOf(right, currentCode + [true]));
        UnionAssociates(r0, ReverseOf(left, currentCode + [false]), ReverseOf(right, currentCode + [true]));
    }

    /** make_codes: pops the root and labels the tree from the empty code.
        On an empty heap heappop raises IndexError: `ok` is false and
        nothing changes. */
    method MakeCodes() returns (ok: bool, ghost root: Tree)
      requires Valid()
      modifies this
      ensures Valid()
      ensures ok == (old(heap) != [])
      ensures !ok ==> heap == old(heap) && codes == old(codes) && reverseMapping == old(reverseMapping)
      ensures ok ==> root in old(heap) && (forall t | t in old(heap) :: !Less(t, root))
      ensures ok ==> multiset(heap) + multiset{root} == multiset(old(heap))
      ensures ok && |old(heap)| == 1 ==> old(heap) == [root] && heap == []
      ensures ok ==> codes == old(codes) + CodesOf(root, [])
      ensures ok ==> reverseMapping == old(reverseMapping) + ReverseOf(root, [])
    {
      if heap == [] {
        ok, root := false, Leaf(0, 0);
        return;
      }
      var top := HeapPop();
      root := top;
      if |old(heap)| == 1 {
        assert |heap| == 0;
        assert old(heap)[0] == top;
        assert old(heap) == [top];
      }
      ghost var rest := heap;
      MakeCodesHelper(top, []);
      assert heap == rest;
      ok := true;
    }

    /** encode_arr: the codes of the values concatenated in order; a value
        with no code raises KeyError, reported here for the first such value. */
    method EncodeArr(arr: seq<Symbol>) returns (r: Result<seq<bool>>)
      ensures r.Success? <==> AllCoded(codes, arr)
      ensures r.Success? ==> r.value == EncodeSeq(codes, arr)
      ensures r.Failure? ==> exists k | 0 <= k < |arr| ::
        && arr[k] !in codes
        && r.error == UnknownSymbol(arr[k])
        && AllCoded(codes, arr[..k])
    {
      var encodedText := [];
      var i := 0;
      while i < |arr|
        invariant 0 <= i <= |arr|
        invariant AllCoded(codes, arr[..i])
        invariant encodedText == EncodeSeq(codes, arr[..i])
      {
        var value := arr[i];
        if value !in codes {
          return Failure(UnknownSymbol(value));
        }
        assert arr[..i + 1] == arr[..i] + [value];
        assert EncodeSeq(codes, [value]) == codes[value] by {
          assert [value][1..] == [];
        }
        EncodeSeqConcat(codes, arr[..i], [value]);
        encodedText := encodedText + codes[value];
        i := i + 1;
      }
      assert arr[..|arr|] == arr;
      return Success(encodedText);
    }

    /** compress (without write_codes): frequency table, heap, merging,
        codes, then the encoding of `a`. On an empty input make_codes pops
        an empty heap. `root` is the tree the codes are read from. */
    method Compress(a: seq<Symbol>) returns (r: Result<seq<bool>>, ghost root: Tree,
                                             ghost steps: seq<seq<Tree>>, ghost merges: seq<(Tree, Tree)>)
      requires Valid() && heap == []
      modifies this
      ensures Valid() && heap == []
      ensures a != [] ==> MergeTrace(InitialHeap(a), steps, merges, [root])
      ensures a != [] ==> |merges| + 1 == |FirstOccurrences(a)|
      ensures a == [] ==> r == Failure(EmptyInput)
      ensures a == [] ==> codes == old(codes) && reverseMapping == old(reverseMapping)
      ensures a != [] ==> HuffmanTreeOf(root, a)
      ensures a != [] ==> codes == old(codes) + CodesOf(root, [])
      ensures a != [] ==> reverseMapping == old(reverseMapping) + ReverseOf(root, [])
      ensures a != [] ==> AllCoded(codes, a) && r == Success(EncodeSeq(codes, a))
    {
      var frequency := MakeFrequencyDict(a);
      MakeHeap(frequency);
      ghost var leaves := Leaves(frequency.order, frequency.count);
      assert heap == leaves by {
        assert old(heap) + leaves == leaves;
      }
      LeavesFacts(frequency.order, frequency.count, a);
      assert a != [] <==> leaves != [] by {
        if a != [] {
          assert a[0] in frequency.order;
        }
      }
      steps, merges := MergeNodes(multiset(a));
      ghost var merged := heap;
      var ok;
      ok, root := MakeCodes();
      if !ok {
        r := Failure(EmptyInput);
        return;
      }
      assert HuffmanTreeOf(root, a) by {
        assert merged == [root];
        MergedRoot(frequency, a, root);
      }
      assert MergeTrace(InitialHeap(a), steps, merges, [root]) by {
        assert merged == [root] && leaves == InitialHeap(a);
      }
      MergeTraceRounds(InitialHeap(a), steps, merges, [root]);
      assert AllCoded(codes, a) by {
        TreeShape(root, a);
        forall i | 0 <= i < |a| ensures a[i] in codes {
          CodesArePaths(root, a[i]);
        }
      }
      r := EncodeArr(a);
    }

    /** decode_arr: greedy prefix matching against the reverse table; bits
        left unmatched at the end are dropped. */
    method DecodeArr(encoded: seq<bool>) returns (decoded: seq<Symbol>)
      ensures decoded == Decode(reverseMapping, encoded)
    {
      var currentCode := [];
      decoded := [];
      var i := 0;
      while i < |encoded|
        invariant 0 <= i <= |encoded|
        invariant var rest := DecodeFrom(reverseMapping, currentCode, encoded[i..]);
          DecodeFrom(reverseMapping, [], encoded) == Decoded(decoded + rest.symbols, rest.leftover)
      {
        var bit := encoded[i];
        assert encoded[i..][0] == bit && encoded[i..][1..] == encoded[i + 1..];
        currentCode := currentCode + [bit];
        if currentCode in reverseMapping {
          var value := reverseMapping[currentCode];
          decoded := decoded + [value];
          currentCode := [];
        }
        i := i + 1;
      }
    }

    /** decompress. */
    method Decompress(encoded: seq<bool>) returns (decompressed: seq<Symbol>)
      ensures decompressed == Decode(reverseMapping, encoded)
    {
      decompressed := DecodeArr(encoded);
    }
  }

  lemma MergeKeeps(a: multiset<Symbol>, b: multiset<Symbol>, c: multiset<Symbol>, d: multiset<Symbol>, x: multiset<Symbol>, y: multiset<Symbol>)
    requires b + x == a && c + y == b && d == c + (x + y)
    ensures d == a
  {
    assert forall s :: d[s] == a[s];
  }

  lemma EmptyUnion<K, V>(m: map<K, V>)
    ensures map[] + m == m
  {
  }

  lemma UnionAssociates<K, V>(m: map<K, V>, a: map<K, V>, b: map<K, V>)
    ensures (m + a) + b == m + (a + b)
  {
  }

  /** The script from compression to the reconstructed pixel values, with the
      encryption layer taken as the identity on the packed bytes. It fails
      on an empty input (heappop on an empty heap) and on a one-value input
      (its code is empty, and int("", 2) raises). Otherwise it gives back the
      input when the stream length is not a multiple of 8; when it is, the
      first 8 bits of the stream are stripped along with the padding.
      `root` is the tree the codes are read from. */
  method RunScript(a: seq<Symbol>) returns (compressed: seq<bool>, strPad: nat, finalArr: Result<seq<Symbol>>,
                                            ghost root: Tree, ghost steps: seq<seq<Tree>>, ghost merges: seq<(Tree, Tree)>)
    ensures a == [] ==> finalArr == Failure(EmptyInput)
    ensures a != [] ==> MergeTrace(InitialHeap(a), steps, merges, [root])
    ensures a != [] ==> HuffmanTreeOf(root, a) && AllCoded(CodesOf(root, []), a)
    ensures a != [] ==> compressed == EncodeSeq(CodesOf(root, []), a) && strPad == StrPad(|compressed|)
    ensures a != [] && !TwoSymbols(a) ==> compressed == [] && finalArr == Failure(EmptyBitstream)
    ensures TwoSymbols(a) ==> |compressed| > 0 && finalArr.Success?
    ensures TwoSymbols(a) && |compressed| % 8 != 0 ==> finalArr == Success(a)
    ensures TwoSymbols(a) && |compressed| % 8 == 0 ==> finalArr == Success(Decode(ReverseOf(root, []), compressed[8..]))
  {
    var h := new HuffmanCoding();
    var r;
    r, root, steps, merges := h.Compress(a);
    if r.Failure? {
      return [], 0, Failure(r.error), root, steps, merges;
    }
    compressed := r.value;
    strPad := StrPad(|compressed|);
    EmptyUnion(CodesOf(root, []));
    EmptyUnion(ReverseOf(root, []));
    assert h.codes == CodesOf(root, []) && h.reverseMapping == ReverseOf(root, []);
    CompressedTable(root, a);
    if |compressed| == 0 {
      assert !TwoSymbols(a) by {
        if TwoSymbols(a) {
          EncodedNonEmpty(root, a);
        }
      }
      return compressed, strPad, Failure(EmptyBitstream), root, steps, merges;
    }
    TreeShape(root, a);
    var stringBytes := Pack(compressed);
    var bits := BytesToBits(stringBytes);
    var decryptedString := DropPrefix(bits, strPad);
    StrPadStrips(compressed);
    var decoded := h.Decompress(decryptedString);
    finalArr := Success(decoded);
  }
}
