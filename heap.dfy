// The heap of HeapNodes that HuffmanCoding keeps in `self.heap`, seen as an
// abstract priority queue: only which nodes it holds matters, not the array
// layout that heapq maintains. Totals over the heap are taken from the last
// node backwards, the way the heap grows by pushes.

module HeapModel {
  import opened HuffmanTree

  /** The heap without its node at position i. */
  function RemoveAt(heap: seq<Tree>, i: nat): (r: seq<Tree>)
    requires i < |heap|
    ensures |r| == |heap| - 1
    ensures multiset(r) + multiset{heap[i]} == multiset(heap)
  {
    assert heap == heap[..i] + [heap[i]] + heap[i + 1..];
    heap[..i] + heap[i + 1..]
  }

  /** The sum of the frequencies of the nodes in the heap. */
  function SumFreq(heap: seq<Tree>): nat {
    if heap == [] then 0 else SumFreq(heap[..|heap| - 1]) + heap[|heap| - 1].freq
  }

  /** The symbols at the leaves of all the trees in the heap. */
  function ForestSyms(heap: seq<Tree>): multiset<Symbol> {
    if heap == [] then multiset{} else ForestSyms(heap[..|heap| - 1]) + LeafSyms(heap[|heap| - 1])
  }

  /** Position i holds a node of least frequency (no node is Less than it). */
  predicate IsMinAt(heap: seq<Tree>, i: int) {
    0 <= i < |heap| && forall t | t in heap :: !Less(t, heap[i])
  }

  /** One round of merge_nodes: `first` is a node of least frequency in
      `before`, `second` one of least frequency among the rest, and `after`
      holds the rest with their merge in place of both. */
  ghost predicate MergesLeast(before: seq<Tree>, first: Tree, second: Tree, after: seq<Tree>) {
    var rest := multiset(before) - multiset{first};
    && first in before && (forall t | t in before :: !Less(t, first))
    && second in rest && (forall t | t in rest :: !Less(t, second))
    && multiset(after) == rest - multiset{second} + multiset{Node(first.freq + second.freq, first, second)}
  }

  /** `steps` are the heaps merge_nodes goes through from `start` to `end`,
      and `merges` the pairs of nodes it merges, each round merging two
      least nodes. */
  ghost predicate MergeTrace(start: seq<Tree>, steps: seq<seq<Tree>>, merges: seq<(Tree, Tree)>, end: seq<Tree>) {
    && |steps| == |merges| + 1
    && steps[0] == start
    && steps[|merges|] == end
    && forall k | 0 <= k < |merges| :: MergesLeast(steps[k], merges[k].0, merges[k].1, steps[k + 1])
  }

  /** Two pops of a least node and a push of their merge make one round. */
  lemma PopPopPush(before: seq<Tree>, between: seq<Tree>, rest: seq<Tree>, after: seq<Tree>, first: Tree, second: Tree)
    requires first in before && forall t | t in before :: !Less(t, first)
    requires multiset(between) + multiset{first} == multiset(before)
    requires second in between && forall t | t in between :: !Less(t, second)
    requires multiset(rest) + multiset{second} == multiset(between)
    requires after == rest + [Node(first.freq + second.freq, first, second)]
    ensures MergesLeast(before, first, second, after)
  {
    assert multiset(between) == multiset(before) - multiset{first};
    assert multiset(rest) == multiset(between) - multiset{second};
    assert multiset(after) == multiset(rest) + multiset{Node(first.freq + second.freq, first, second)};
  }

  /** A trace followed by one more round is a trace. */
  lemma TraceExtend(start: seq<Tree>, steps: seq<seq<Tree>>, merges: seq<(Tree, Tree)>, end: seq<Tree>,
                    first: Tree, second: Tree, after: seq<Tree>)
    requires MergeTrace(start, steps, merges, end) && MergesLeast(end, first, second, after)
    ensures MergeTrace(start, steps + [after], merges + [(first, second)], after)
  {
    var steps', merges' := steps + [after], merges + [(first, second)];
    forall k | 0 <= k < |merges'|
      ensures MergesLeast(steps'[k], merges'[k].0, merges'[k].1, steps'[k + 1])
    {
      if k < |merges| {
        assert steps'[k] == steps[k] && steps'[k + 1] == steps[k + 1] && merges'[k] == merges[k];
      }
    }
  }

  /** Each round takes one node off the heap. */
  lemma MergeShrinks(before: seq<Tree>, first: Tree, second: Tree, after: seq<Tree>)
    requires MergesLeast(before, first, second, after)
    ensures |after| + 1 == |before|
  {
    assert first in multiset(before);
    CardinalityShrinks(multiset(before), first, second, multiset(after), Node(first.freq + second.freq, first, second));
  }

  lemma CardinalityShrinks(before: multiset<Tree>, first: Tree, second: Tree, after: multiset<Tree>, merged: Tree)
    requires first in before && second in before - multiset{first}
    requires after == before - multiset{first} - multiset{second} + multiset{merged}
    ensures |after| + 1 == |before|
  {
    var rest := before - multiset{first};
    var kept := rest - multiset{second};
    assert before == rest + multiset{first};
    assert rest == kept + multiset{second};
  }

  /** A trace from n nodes down to one has n - 1 rounds. */
  lemma {:induction false} MergeTraceRounds(start: seq<Tree>, steps: seq<seq<Tree>>, merges: seq<(Tree, Tree)>, end: seq<Tree>)
    requires MergeTrace(start, steps, merges, end)
    ensures |end| + |merges| == |start|
    decreases |merges|
  {
    if merges != [] {
      var m := |merges| - 1;
      assert MergeTrace(start, steps[..m + 1], merges[..m], steps[m]);
      MergeTraceRounds(start, steps[..m + 1], merges[..m], steps[m]);
      MergeShrinks(steps[m], merges[m].0, merges[m].1, end);
    }
  }

  lemma {:induction false} SumFreqConcat(a: seq<Tree>, b: seq<Tree>)
    ensures SumFreq(a + b) == SumFreq(a) + SumFreq(b)
    decreases |b|
  {
    if b != [] {
      var b' := b[..|b| - 1];
      assert (a + b)[..|a + b| - 1] == a + b';
      SumFreqConcat(a, b');
    } else {
      assert a + b == a;
    }
  }

  lemma {:induction false} ForestSymsConcat(a: seq<Tree>, b: seq<Tree>)
    ensures ForestSyms(a + b) == ForestSyms(a) + ForestSyms(b)
    decreases |b|
  {
    if b != [] {
      var b' := b[..|b| - 1];
      assert (a + b)[..|a + b| - 1] == a + b';
      ForestSymsConcat(a, b');
    } else {
      assert a + b == a;
    }
  }

  /** Removing one node takes exactly its frequency out of the heap's total. */
  lemma {:induction false} RemoveAtSum(heap: seq<Tree>, i: nat)
    requires i < |heap|
    ensures SumFreq(RemoveAt(heap, i)) + heap[i].freq == SumFreq(heap)
  {
    var front, back := heap[..i], heap[i + 1..];
    var withX := front + [heap[i]];
    assert withX[..|withX| - 1] == front;
    assert SumFreq(withX) == SumFreq(front) + heap[i].freq;
    assert heap == withX + back;
    SumFreqConcat(front, back);
    SumFreqConcat(withX, back);
  }

  /** Removing one node takes exactly its leaves out of the heap's leaves. */
  lemma {:induction false} RemoveAtSyms(heap: seq<Tree>, i: nat)
    requires i < |heap|
    ensures ForestSyms(RemoveAt(heap, i)) + LeafSyms(heap[i]) == ForestSyms(heap)
  {
    var front, back := heap[..i], heap[i + 1..];
    var withX := front + [heap[i]];
    assert withX[..|withX| - 1] == front;
    assert ForestSyms(withX) == ForestSyms(front) + LeafSyms(heap[i]);
    assert heap == withX + back;
    ForestSymsConcat(front, back);
    ForestSymsConcat(withX, back);
  }

  /** A non-empty heap has a node of least frequency. */
  lemma {:induction false} MinimumExists(heap: seq<Tree>)
    requires heap != []
    ensures exists i :: IsMinAt(heap, i)
    decreases |heap|
  {
    var n := |heap| - 1;
    if n == 0 {
      assert IsMinAt(heap, 0);
    } else {
      var front := heap[..n];
      MinimumExists(front);
      var i :| IsMinAt(front, i);
      if Less(heap[n], front[i]) {
        assert IsMinAt(heap, n) by {
          forall t | t in heap ensures !Less(t, heap[n]) {
            if t in front {
              assert !Less(t, front[i]);
            } else {
              assert t == heap[n] by { assert heap == front + [heap[n]]; }
            }
          }
        }
      } else {
        assert IsMinAt(heap, i) by {
          forall t | t in heap ensures !Less(t, heap[i]) {
            if t in front {
              assert !Less(t, front[i]);
            } else {
              assert t == heap[n] by { assert heap == front + [heap[n]]; }
            }
          }
        }
      }
    }
  }
}
