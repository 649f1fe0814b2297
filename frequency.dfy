// The frequency table of HuffmanCoding.make_frequency_dict and the heap of
// leaves that make_heap builds from it (Huffman_RSA_Fernet.py:45-57).

module Frequency {
  import opened HuffmanTree
  import opened HeapModel

  /** A Python dict from pixel value to count: its entries, and the order in
      which its keys were first inserted, which is the order it iterates in. */
  datatype FrequencyDict = FrequencyDict(order: seq<Symbol>, count: map<Symbol, nat>) {
    ghost predicate Valid() {
      && (forall i, j | 0 <= i < j < |order| :: order[i] != order[j])
      && (forall v :: v in count <==> v in order)
    }
  }

  /** `frequency` is the frequency table of `arr`: its keys are exactly the
      values occurring in `arr`, each mapped to its number of occurrences. */
  ghost predicate Counts(frequency: FrequencyDict, arr: seq<Symbol>) {
    && frequency.Valid()
    && (forall v :: v in frequency.count <==> v in arr)
    && (forall v | v in frequency.count :: frequency.count[v] == multiset(arr)[v])
  }

  /** The distinct values of `arr` in the order they first occur: the
      order a dict takes its keys in when they are inserted while `arr` is
      scanned from the front. */
  function FirstOccurrences(arr: seq<Symbol>): seq<Symbol>
    decreases |arr|
  {
    if arr == [] then []
    else
      var seen := FirstOccurrences(arr[..|arr| - 1]);
      if arr[|arr| - 1] in seen then seen else seen + [arr[|arr| - 1]]
  }

  /** The keys are the values of `arr`, each listed once. */
  lemma {:induction false} FirstOccurrencesKeys(arr: seq<Symbol>)
    ensures forall v :: v in FirstOccurrences(arr) <==> v in arr
    ensures forall i, j | 0 <= i < j < |FirstOccurrences(arr)| :: FirstOccurrences(arr)[i] != FirstOccurrences(arr)[j]
    decreases |arr|
  {
    if arr != [] {
      var front, last := arr[..|arr| - 1], arr[|arr| - 1];
      assert arr == front + [last];
      FirstOccurrencesKeys(front);
    }
  }

  /** The number of occurrences of each value of `arr`. */
  function Histogram(arr: seq<Symbol>): map<Symbol, nat> {
    map v | v in arr :: multiset(arr)[v]
  }

  /** The sum of the counts of the keys in `order`. */
  function Total(order: seq<Symbol>, count: map<Symbol, nat>): nat
    requires forall v | v in order :: v in count
  {
    if order == [] then 0
    else Total(order[..|order| - 1], count) + count[order[|order| - 1]]
  }

  /** The heap make_heap pushes: one leaf per key, in the dict's order. */
  function Leaves(order: seq<Symbol>, count: map<Symbol, nat>): seq<Tree>
    requires forall v | v in order :: v in count
  {
    if order == [] then []
    else
      var k := order[|order| - 1];
      Leaves(order[..|order| - 1], count) + [Leaf(k, count[k])]
  }

  /** The heap make_heap builds from the frequency table of `arr`. */
  function InitialHeap(arr: seq<Symbol>): seq<Tree> {
    FirstOccurrencesKeys(arr);
    Leaves(FirstOccurrences(arr), Histogram(arr))
  }

  /** The number of occurrences in `arr` of the keys in `order`, added up. */
  ghost function Occurrences(order: seq<Symbol>, arr: seq<Symbol>): nat {
    if order == [] then 0
    else Occurrences(order[..|order| - 1], arr) + multiset(arr)[order[|order| - 1]]
  }

  /** A key list without repetitions holds each key at most once. */
  lemma {:induction false} DistinctOnce(order: seq<Symbol>, x: Symbol)
    requires forall i, j | 0 <= i < j < |order| :: order[i] != order[j]
    ensures multiset(order)[x] <= 1
    ensures x in order ==> multiset(order)[x] == 1
    decreases |order|
  {
    if order != [] {
      var o, k := order[..|order| - 1], order[|order| - 1];
      assert order == o + [k];
      DistinctOnce(o, x);
      if x == k {
        assert x !in o;
      }
    }
  }

  /** The dict's keys, in iteration order, list each value of `arr` exactly
      once and nothing else. */
  lemma KeysOnce(frequency: FrequencyDict, arr: seq<Symbol>, s: Symbol)
    requires Counts(frequency, arr)
    ensures multiset(frequency.order)[s] == if s in arr then 1 else 0
  {
    DistinctOnce(frequency.order, s);
    assert s in frequency.count <==> s in arr;
  }

  /** Scanning one more value appends it to the keys unless it was seen. */
  lemma FirstOccurrencesSnoc(arr: seq<Symbol>, x: Symbol)
    ensures FirstOccurrences(arr + [x])
      == if x in arr then FirstOccurrences(arr) else FirstOccurrences(arr) + [x]
  {
    assert (arr + [x])[..|arr + [x]| - 1] == arr;
    FirstOccurrencesKeys(arr);
  }

  /** Counting one more value adds one to its count, or starts it at one. */
  lemma HistogramSnoc(arr: seq<Symbol>, x: Symbol)
    ensures Histogram(arr + [x]) == Histogram(arr)[x := multiset(arr)[x] + 1]
  {
    assert multiset(arr + [x]) == multiset(arr) + multiset{x};
    assert Histogram(arr + [x]).Keys == Histogram(arr)[x := multiset(arr)[x] + 1].Keys;
  }

  /** `order` and `count` are the dict make_frequency_dict has built after
      scanning `prefix`. */
  ghost predicate Scanned(prefix: seq<Symbol>, order: seq<Symbol>, count: map<Symbol, nat>) {
    order == FirstOccurrences(prefix) && count == Histogram(prefix)
  }

  /** One iteration of make_frequency_dict: a value not yet a key is
      inserted with count 0, then its count goes up by one. */
  lemma ScanStep(prefix: seq<Symbol>, x: Symbol, order: seq<Symbol>, count: map<Symbol, nat>)
    requires Scanned(prefix, order, count)
    ensures var inserted := if x in count then count else count[x := 0];
      Scanned(prefix + [x], if x in count then order else order + [x], inserted[x := inserted[x] + 1])
  {
    assert x in count <==> x in prefix;
    FirstOccurrencesSnoc(prefix, x);
    HistogramSnoc(prefix, x);
    if x in count {
      assert count[x] == multiset(prefix)[x];
    } else {
      assert multiset(prefix)[x] == 0;
      InsertThenCount(count, x);
    }
  }

  /** Inserting a key with count 0 and then counting it once is the same as
      setting its count to 1. */
  lemma InsertThenCount(count: map<Symbol, nat>, x: Symbol)
    ensures count[x := 0][x := count[x := 0][x] + 1] == count[x := 1]
  {
  }

  /** The dict built from the first occurrences and the histogram is the
      frequency table of `arr`. */
  lemma FirstOccurrencesCount(arr: seq<Symbol>)
    ensures Counts(FrequencyDict(FirstOccurrences(arr), Histogram(arr)), arr)
  {
    FirstOccurrencesKeys(arr);
  }

  /** A frequency table's counts are the histogram of its input. */
  lemma CountsHistogram(frequency: FrequencyDict, arr: seq<Symbol>)
    requires Counts(frequency, arr)
    ensures frequency.count == Histogram(arr)
  {
    assert frequency.count.Keys == Histogram(arr).Keys;
  }

  /** `x` occurs in `arr` at a position before which `y` has not occurred. */
  ghost predicate OccursBefore(arr: seq<Symbol>, x: Symbol, y: Symbol) {
    exists k | 0 <= k < |arr| :: arr[k] == x && y !in arr[..k]
  }

  /** First-occurrence order: of two keys, the earlier one occurs in `arr`
      before the later one first does. */
  lemma {:induction false} FirstOccurrencesOrder(arr: seq<Symbol>)
    ensures forall i, j | 0 <= i < j < |FirstOccurrences(arr)| ::
      OccursBefore(arr, FirstOccurrences(arr)[i], FirstOccurrences(arr)[j])
    decreases |arr|
  {
    if arr != [] {
      var n := |arr| - 1;
      var front, last := arr[..n], arr[n];
      var seen, r := FirstOccurrences(front), FirstOccurrences(arr);
      FirstOccurrencesOrder(front);
      FirstOccurrencesKeys(front);
      forall i, j | 0 <= i < j < |r|
        ensures OccursBefore(arr, r[i], r[j])
      {
        assert r[i] == seen[i];
        if j < |seen| {
          assert r[j] == seen[j];
          assert OccursBefore(front, seen[i], seen[j]);
          var k :| 0 <= k < |front| && front[k] == seen[i] && seen[j] !in front[..k];
          assert arr[..k] == front[..k];
          assert arr[k] == r[i];
        } else {
          assert r == seen + [last] && r[j] == last && last !in front;
          assert seen[i] in seen && seen[i] in front;
          var k :| 0 <= k < |front| && front[k] == seen[i];
          assert arr[..k] == front[..k];
          assert last !in arr[..k] by {
            forall y | y in front[..k] ensures y in front {
              var m :| 0 <= m < k && front[..k][m] == y;
              assert front[m] == y;
            }
          }
          assert arr[k] == r[i];
        }
      }
    }
  }

  /** One more element in `arr` adds its multiplicity in `order`. */
  lemma {:induction false} OccurrencesSnoc(order: seq<Symbol>, arr: seq<Symbol>, x: Symbol)
    ensures Occurrences(order, arr + [x]) == Occurrences(order, arr) + multiset(order)[x]
    decreases |order|
  {
    if order != [] {
      var o, k := order[..|order| - 1], order[|order| - 1];
      assert order == o + [k];
      OccurrencesSnoc(o, arr, x);
    }
  }

  /** Counting every distinct value of `arr` accounts for all of `arr`. */
  lemma {:induction false} OccurrencesCoverAll(order: seq<Symbol>, arr: seq<Symbol>)
    requires forall i, j | 0 <= i < j < |order| :: order[i] != order[j]
    requires forall x | x in arr :: x in order
    ensures Occurrences(order, arr) == |arr|
    decreases |arr|
  {
    if arr == [] {
      OccurrencesOfEmpty(order, arr);
    } else {
      var r, x := arr[..|arr| - 1], arr[|arr| - 1];
      assert arr == r + [x];
      OccurrencesCoverAll(order, r);
      OccurrencesSnoc(order, r, x);
      DistinctOnce(order, x);
    }
  }

  lemma {:induction false} OccurrencesOfEmpty(order: seq<Symbol>, arr: seq<Symbol>)
    requires arr == []
    ensures Occurrences(order, arr) == 0
    decreases |order|
  {
    if order != [] {
      OccurrencesOfEmpty(order[..|order| - 1], arr);
    }
  }

  lemma {:induction false} TotalIsOccurrences(order: seq<Symbol>, count: map<Symbol, nat>, arr: seq<Symbol>)
    requires forall v | v in order :: v in count && count[v] == multiset(arr)[v]
    ensures Total(order, count) == Occurrences(order, arr)
    decreases |order|
  {
    if order != [] {
      TotalIsOccurrences(order[..|order| - 1], count, arr);
    }
  }

  /** The counts of a frequency table add up to the length of the input. */
  lemma CountsSumToLength(frequency: FrequencyDict, arr: seq<Symbol>)
    requires Counts(frequency, arr)
    ensures Total(frequency.order, frequency.count) == |arr|
  {
    TotalIsOccurrences(frequency.order, frequency.count, arr);
    OccurrencesCoverAll(frequency.order, arr);
  }

  /** The leaves make_heap pushes: well-formed leaves, one per key, carrying
      the key's count, whose frequencies add up to the table's total. */
  lemma {:induction false} LeavesFacts(order: seq<Symbol>, count: map<Symbol, nat>, arr: seq<Symbol>)
    requires forall v | v in order :: v in count && count[v] == multiset(arr)[v]
    ensures |Leaves(order, count)| == |order|
    ensures SumFreq(Leaves(order, count)) == Total(order, count)
    ensures ForestSyms(Leaves(order, count)) == multiset(order)
    ensures forall t | t in Leaves(order, count) :: WellFormed(t) && LeavesCarry(t, multiset(arr))
    decreases |order|
  {
    if order != [] {
      var o, k := order[..|order| - 1], order[|order| - 1];
      var front := Leaves(o, count);
      var heap := front + [Leaf(k, count[k])];
      LeavesFacts(o, count, arr);
      assert heap[..|heap| - 1] == front;
      assert order == o + [k];
    }
  }
}
