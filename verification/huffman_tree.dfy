/**
 * The Huffman code tree shared by the two codec variants
 * (assignment-1/question-7/question-7-testing.cpp and question-7.cpp).
 *
 * A `HuffmanNode` whose `left` and `right` are both null is a leaf; the build
 * only ever sets both children of an internal node, so the tree is an owned
 * recursive sum type with no null children.  The placeholder symbol the source
 * stores in internal nodes (-1, or '\0') is never read and is dropped.
 */
module HuffmanTree {
  import opened Wrappers

  datatype Tree<S> =
    | Leaf(sym: S, freq: nat)
    | Node(freq: nat, left: Tree<S>, right: Tree<S>)

  /** The symbols held by the leaves, with multiplicity. */
  ghost function Syms<S>(t: Tree<S>): multiset<S>
  {
    match t
    case Leaf(s, _) => multiset{s}
    case Node(_, l, r) => Syms(l) + Syms(r)
  }

  /** Every internal node's frequency is the sum of its children's, and every leaf counts something. */
  predicate WellFormed<S>(t: Tree<S>)
  {
    match t
    case Leaf(_, f) => f > 0
    case Node(f, l, r) => f == l.freq + r.freq && WellFormed(l) && WellFormed(r)
  }

  /** No symbol labels two leaves. */
  ghost predicate DistinctLeaves<S>(t: Tree<S>)
  {
    match t
    case Leaf(_, _) => true
    case Node(_, l, r) => Syms(l) !! Syms(r) && DistinctLeaves(l) && DistinctLeaves(r)
  }

  /** Every leaf's frequency is the occurrence count of its symbol in `counts`. */
  predicate FreqsMatch<S>(t: Tree<S>, counts: multiset<S>)
  {
    match t
    case Leaf(s, f) => f == counts[s]
    case Node(_, l, r) => FreqsMatch(l, counts) && FreqsMatch(r, counts)
  }

  /** One step of a walk: bit 0 (false) takes the left child, bit 1 (true) the right child. */
  function Child<S>(t: Tree<S>, bit: bool): Tree<S>
    requires t.Node?
  {
    if bit then t.right else t.left
  }

  /** The node reached from `t` by following `path`, if the path stays inside the tree. */
  function Follow<S>(t: Tree<S>, path: seq<bool>): Option<Tree<S>>
  {
    if path == [] then Some(t)
    else if t.Leaf? then None
    else Follow(Child(t, path[0]), path[1..])
  }

  /** Number of leaves of the tree. */
  function LeafCount<S>(t: Tree<S>): (n: nat)
    ensures n == |Syms(t)|
  {
    match t
    case Leaf(_, _) => 1
    case Node(_, l, r) => LeafCount(l) + LeafCount(r)
  }

  ghost predicate AtMostOnce<S>(m: multiset<S>, s: S)
  {
    m[s] <= 1
  }

  /** A tree in which no symbol is counted twice has distinct leaves. */
  lemma {:induction false} SingleCountsDistinct<S>(t: Tree<S>)
    requires forall s :: AtMostOnce(Syms(t), s)
    ensures DistinctLeaves(t)
  {
    if t.Node? {
      var L, R := Syms(t.left), Syms(t.right);
      assert Syms(t) == L + R;
      forall s ensures AtMostOnce(L, s) && AtMostOnce(R, s) {
        assert AtMostOnce(Syms(t), s);
      }
      SingleCountsDistinct(t.left);
      SingleCountsDistinct(t.right);
      forall s | s in L ensures s !in R {
        assert AtMostOnce(Syms(t), s);
      }
    }
  }

  /** Following a concatenated path is following its first part, then its second. */
  lemma {:induction false} FollowAppend<S>(t: Tree<S>, a: seq<bool>, b: seq<bool>)
    ensures Follow(t, a + b) == (if Follow(t, a).Some? then Follow(Follow(t, a).value, b) else None)
    decreases |a|
  {
    if a == [] {
      assert a + b == b;
    } else if t.Node? {
      assert (a + b)[0] == a[0] && (a + b)[1..] == a[1..] + b;
      FollowAppend(Child(t, a[0]), a[1..], b);
    }
  }
}
