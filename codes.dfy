// The code table that HuffmanCoding.make_codes_helper writes into `codes`
// and `reverse_mapping` (Huffman_RSA_Fernet.py:72-88), as functions of the
// tree, and what it is: the table of root-to-leaf paths of the tree.

module CodeTable {
  import opened Outcomes
  import opened HuffmanTree

  /** The entries make_codes_helper(t, prefix) writes into `codes`: each
      leaf's symbol mapped to `prefix` followed by the path to the leaf. A
      later leaf overwrites an earlier one with the same symbol, as a dict
      assignment does. */
  function CodesOf(t: Tree, prefix: seq<bool>): map<Symbol, seq<bool>> {
    match t
    case Leaf(s, _) => map[s := prefix]
    case Node(_, l, r) => CodesOf(l, prefix + [false]) + CodesOf(r, prefix + [true])
  }

  /** The entries make_codes_helper(t, prefix) writes into `reverse_mapping`. */
  function ReverseOf(t: Tree, prefix: seq<bool>): map<seq<bool>, Symbol> {
    match t
    case Leaf(s, _) => map[prefix := s]
    case Node(_, l, r) => ReverseOf(l, prefix + [false]) + ReverseOf(r, prefix + [true])
  }

  /** No code of the table is a proper prefix of another. */
  ghost predicate PrefixFree(reverseMapping: map<seq<bool>, Symbol>) {
    forall c, d | c in reverseMapping && d in reverseMapping && c != d :: !(c <= d)
  }

  /** `codes` and `reverseMapping` are inverse bijections. */
  ghost predicate Inverse(codes: map<Symbol, seq<bool>>, reverseMapping: map<seq<bool>, Symbol>) {
    && (forall s | s in codes :: codes[s] in reverseMapping && reverseMapping[codes[s]] == s)
    && (forall c | c in reverseMapping :: reverseMapping[c] in codes && codes[reverseMapping[c]] == c)
  }

  /** The reverse table under `prefix` holds exactly the codes that are
      `prefix` followed by a root-to-leaf path, mapped to that leaf's symbol. */
  lemma {:induction false} ReverseOfFollows(t: Tree, prefix: seq<bool>, c: seq<bool>)
    ensures c in ReverseOf(t, prefix) <==> prefix <= c && Follow(t, c[|prefix|..]).Some?
    ensures c in ReverseOf(t, prefix) ==> Follow(t, c[|prefix|..]) == Some(ReverseOf(t, prefix)[c])
  {
    var n := |prefix|;
    match t
    case Leaf(s, _) =>
      if prefix <= c && c[n..] == [] {
        assert c == prefix;
      }
    case Node(_, l, r) =>
      var p0, p1 := prefix + [false], prefix + [true];
      ReverseOfFollows(l, p0, c);
      ReverseOfFollows(r, p1, c);
      if prefix <= c && |c| > n {
        var d := c[n..];
        assert d[0] == c[n] && d[1..] == c[n + 1..];
        assert c[..n + 1] == prefix + [c[n]];
        if c[n] {
          assert p1 <= c && !(p0 <= c);
        } else {
          assert p0 <= c && !(p1 <= c);
        }
      } else {
        assert !(p0 <= c) && !(p1 <= c);
        if prefix <= c {
          assert c[n..] == [];
        }
      }
  }

  /** The forward table under any prefix has exactly the leaves' symbols as keys. */
  lemma {:induction false} CodesOfKeys(t: Tree, prefix: seq<bool>, s: Symbol)
    ensures s in CodesOf(t, prefix) <==> s in LeafSyms(t)
  {
    match t
    case Leaf(_, _) =>
    case Node(_, l, r) =>
      CodesOfKeys(l, prefix + [false], s);
      CodesOfKeys(r, prefix + [true], s);
  }

  /** When no symbol is repeated, the code of a symbol is `prefix` followed
      by the path from the root to its leaf. */
  lemma {:induction false} CodesOfFollows(t: Tree, prefix: seq<bool>, s: Symbol)
    requires DistinctSyms(t) && s in LeafSyms(t)
    ensures s in CodesOf(t, prefix)
    ensures prefix <= CodesOf(t, prefix)[s]
    ensures Follow(t, CodesOf(t, prefix)[s][|prefix|..]) == Some(s)
  {
    CodesOfKeys(t, prefix, s);
    var n := |prefix|;
    match t
    case Leaf(_, _) =>
    case Node(_, l, r) =>
      DistinctChildren(t);
      var p0, p1 := prefix + [false], prefix + [true];
      CodesOfKeys(l, p0, s);
      CodesOfKeys(r, p1, s);
      var c := CodesOf(t, prefix)[s];
      if s in LeafSyms(r) {
        CodesOfFollows(r, p1, s);
        assert c == CodesOf(r, p1)[s];
        assert c[..n + 1] == p1;
        assert c[n..][0] == true && c[n..][1..] == c[n + 1..];
      } else {
        CodesOfFollows(l, p0, s);
        assert c == CodesOf(l, p0)[s];
        assert c[..n + 1] == p0;
        assert c[n..][0] == false && c[n..][1..] == c[n + 1..];
      }
  }

  /** make_codes gives each symbol of the tree the path from the root to its
      leaf, "0" going left and "1" going right, and gives no other symbol a code. */
  lemma CodesArePaths(t: Tree, s: Symbol)
    requires DistinctSyms(t)
    ensures s in CodesOf(t, []) <==> s in LeafSyms(t)
    ensures s in CodesOf(t, []) ==> Follow(t, CodesOf(t, [])[s]) == Some(s)
  {
    CodesOfKeys(t, [], s);
    if s in LeafSyms(t) {
      CodesOfFollows(t, [], s);
      var c := CodesOf(t, [])[s];
      assert c[0..] == c;
    }
  }

  /** make_codes puts into the reverse table exactly the root-to-leaf paths,
      each mapped to the symbol at its leaf. */
  lemma ReverseArePaths(t: Tree, c: seq<bool>)
    ensures c in ReverseOf(t, []) <==> Follow(t, c).Some?
    ensures c in ReverseOf(t, []) ==> Follow(t, c) == Some(ReverseOf(t, [])[c])
  {
    ReverseOfFollows(t, [], c);
    assert c[0..] == c;
  }

  /** With no repeated symbol, `codes` and `reverse_mapping` are inverses. */
  lemma TableIsInverse(t: Tree)
    requires DistinctSyms(t)
    ensures Inverse(CodesOf(t, []), ReverseOf(t, []))
  {
    var codes, rev := CodesOf(t, []), ReverseOf(t, []);
    forall s | s in codes
      ensures codes[s] in rev && rev[codes[s]] == s
    {
      CodesArePaths(t, s);
      ReverseArePaths(t, codes[s]);
    }
    forall c | c in rev
      ensures rev[c] in codes && codes[rev[c]] == c
    {
      ReverseArePaths(t, c);
      FollowReachesLeaf(t, c);
      CodesArePaths(t, rev[c]);
      FollowInjective(t, c, codes[rev[c]]);
    }
  }

  /** No code make_codes assigns is a prefix of another. */
  lemma TableIsPrefixFree(t: Tree)
    ensures PrefixFree(ReverseOf(t, []))
  {
    var rev := ReverseOf(t, []);
    forall c, d | c in rev && d in rev && c != d
      ensures !(c <= d)
    {
      ReverseArePaths(t, c);
      ReverseArePaths(t, d);
      FollowPrefixFree(t, c, d);
    }
  }

  /** When the root is a merged node (two or more symbols) every code is
      non-empty; when the root is a leaf (one symbol) its code is empty. */
  lemma CodeLengths(t: Tree)
    ensures t.Node? ==> forall c | c in ReverseOf(t, []) :: c != []
    ensures t.Leaf? ==> ReverseOf(t, []) == map[[] := t.sym] && CodesOf(t, []) == map[t.sym := []]
  {
    if t.Node? {
      forall c | c in ReverseOf(t, []) ensures c != [] {
        ReverseArePaths(t, c);
      }
    }
  }
}
