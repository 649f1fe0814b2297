// The code tree built by the Huffman coder: the HeapNode class of
// Huffman_RSA_Fernet.py, the heap of such nodes, and the facts about both
// that the merging loop keeps.

module HuffmanTree {
  import opened Outcomes

  /** A pixel intensity value, the alphabet the coder works on. */
  type Symbol = x: int | 0 <= x < 256

  /** A HeapNode. A leaf carries a pixel value and its count; a merged node
      (value None in the source) carries only the summed count and its two
      children. Nodes are never changed once they are in the heap, so they
      are values here. */
  datatype Tree =
    | Leaf(sym: Symbol, freq: nat)
    | Node(freq: nat, left: Tree, right: Tree)

  /** HeapNode.__lt__: nodes are ordered by their frequency alone. */
  predicate Less(a: Tree, b: Tree) {
    a.freq < b.freq
  }

  /** Every merged node's frequency is the sum of its two children's. */
  ghost predicate WellFormed(t: Tree) {
    match t
    case Leaf(_, _) => true
    case Node(f, l, r) => f == l.freq + r.freq && WellFormed(l) && WellFormed(r)
  }

  /** The symbols at the leaves, with their multiplicity. */
  function LeafSyms(t: Tree): multiset<Symbol> {
    match t
    case Leaf(s, _) => multiset{s}
    case Node(_, l, r) => LeafSyms(l) + LeafSyms(r)
  }

  /** The sum of the leaves' frequencies. */
  function LeafSum(t: Tree): nat {
    match t
    case Leaf(_, f) => f
    case Node(_, l, r) => LeafSum(l) + LeafSum(r)
  }

  function InternalCount(t: Tree): nat {
    match t
    case Leaf(_, _) => 0
    case Node(_, l, r) => 1 + InternalCount(l) + InternalCount(r)
  }

  /** No symbol sits at two leaves. */
  ghost predicate DistinctSyms(t: Tree) {
    forall s :: LeafSyms(t)[s] <= 1
  }

  /** Every leaf carries the number of times its symbol occurs in `counts`. */
  ghost predicate LeavesCarry(t: Tree, counts: multiset<Symbol>) {
    match t
    case Leaf(s, f) => f == counts[s]
    case Node(_, l, r) => LeavesCarry(l, counts) && LeavesCarry(r, counts)
  }

  /** The symbol of the leaf reached from `t` by reading `path`, false going
      left and true going right; None when the path stops at a merged node
      or runs on past a leaf. */
  function Follow(t: Tree, path: seq<bool>): Option<Symbol> {
    match t
    case Leaf(s, _) => if path == [] then Some(s) else None
    case Node(_, l, r) =>
      if path == [] then None else Follow(if path[0] then r else l, path[1..])
  }

  /** The frequency of a well-formed node is the total of its leaves. */
  lemma {:induction false} FreqIsLeafSum(t: Tree)
    requires WellFormed(t)
    ensures t.freq == LeafSum(t)
  {
    match t
    case Leaf(_, _) =>
    case Node(_, l, r) =>
      FreqIsLeafSum(l);
      FreqIsLeafSum(r);
  }

  /** A tree built by merging pairs has one merged node fewer than leaves. */
  lemma {:induction false} InternalNodesCount(t: Tree)
    ensures InternalCount(t) + 1 == |LeafSyms(t)|
  {
    match t
    case Leaf(_, _) =>
    case Node(_, l, r) =>
      InternalNodesCount(l);
      InternalNodesCount(r);
  }

  /** A path that reaches a symbol reaches one of the tree's leaves. */
  lemma {:induction false} FollowReachesLeaf(t: Tree, path: seq<bool>)
    requires Follow(t, path).Some?
    ensures Follow(t, path).value in LeafSyms(t)
  {
    match t
    case Leaf(_, _) =>
    case Node(_, l, r) =>
      FollowReachesLeaf(if path[0] then r else l, path[1..]);
  }

  /** A path that reaches a leaf cannot be extended to reach another one:
      the leaf paths of a tree are prefix-free. */
  lemma {:induction false} FollowPrefixFree(t: Tree, p: seq<bool>, q: seq<bool>)
    requires Follow(t, p).Some? && Follow(t, q).Some?
    ensures !(p < q)
  {
    match t
    case Leaf(_, _) =>
    case Node(_, l, r) =>
      if p[0] == q[0] {
        FollowPrefixFree(if p[0] then r else l, p[1..], q[1..]);
      }
  }

  /** The two subtrees of a tree without repeated symbols have none either,
      and share no symbol. */
  lemma DistinctChildren(t: Tree)
    requires t.Node? && DistinctSyms(t)
    ensures DistinctSyms(t.left) && DistinctSyms(t.right)
    ensures LeafSyms(t.left) !! LeafSyms(t.right)
  {
    forall s ensures LeafSyms(t.left)[s] <= 1 && LeafSyms(t.right)[s] <= 1 {
      assert LeafSyms(t)[s] <= 1;
    }
    forall s | s in LeafSyms(t.left) ensures s !in LeafSyms(t.right) {
      assert LeafSyms(t)[s] <= 1;
    }
  }

  /** When no symbol sits at two leaves, each symbol is reached by one path. */
  lemma {:induction false} FollowInjective(t: Tree, p: seq<bool>, q: seq<bool>)
    requires DistinctSyms(t)
    requires Follow(t, p).Some? && Follow(t, p) == Follow(t, q)
    ensures p == q
  {
    match t
    case Leaf(_, _) =>
    case Node(_, l, r) =>
      DistinctChildren(t);
      if p[0] != q[0] {
        FollowReachesLeaf(if p[0] then r else l, p[1..]);
        FollowReachesLeaf(if q[0] then r else l, q[1..]);
        assert false;
      } else {
        FollowInjective(if p[0] then r else l, p[1..], q[1..]);
        assert p == [p[0]] + p[1..] && q == [q[0]] + q[1..];
      }
  }
}
