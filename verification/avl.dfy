/**
 * The AVL tree of assignment-2/question-5.cs: integer keys, a payload per
 * node (the node's matrix, carried along unexamined), a stored height, and
 * insert/delete that rebalance on the way back up with single and double
 * rotations. Nodes are owned by exactly one parent, so the in-place updates
 * of the source are modelled as functions that rebuild the path.
 */
module AvlTree {

  /** `AVLTree.Node`: key, payload, stored height, children; `Nil` is a null reference. */
  datatype Avl<V> = Nil | Node(key: int, payload: V, height: nat, left: Avl<V>, right: Avl<V>)

  function Max(a: nat, b: nat): nat
  {
    if a < b then b else a
  }

  /** `HeightOf`: a null subtree has height 0, a node its stored height. */
  function HeightOf<V>(t: Avl<V>): nat
  {
    if t.Nil? then 0 else t.height
  }

  /** `BalanceFactor`: left height minus right height, 0 for a null subtree. */
  function BalanceFactor<V>(t: Avl<V>): int
  {
    if t.Nil? then 0 else HeightOf(t.left) - HeightOf(t.right)
  }

  /** A node whose height is set to `Math.Max(HeightOf(l), HeightOf(r)) + 1`. */
  function Make<V>(key: int, payload: V, l: Avl<V>, r: Avl<V>): Avl<V>
  {
    Node(key, payload, Max(HeightOf(l), HeightOf(r)) + 1, l, r)
  }

  // ---------------------------------------------------------------------------
  // What a tree means: its keys in order, its key-to-payload table, and the
  // invariants the tree keeps.
  // ---------------------------------------------------------------------------

  /** The keys met by an in-order traversal. */
  ghost function Inorder<V>(t: Avl<V>): seq<int>
  {
    match t
    case Nil => []
    case Node(k, _, _, l, r) => Inorder(l) + [k] + Inorder(r)
  }

  /** The table the tree stores: each key with its payload. */
  ghost function Content<V>(t: Avl<V>): map<int, V>
  {
    match t
    case Nil => map[]
    case Node(k, v, _, l, r) => Content(l) + map[k := v] + Content(r)
  }

  /** Binary-search-tree order: left keys below the node's key, right keys above, everywhere. */
  ghost predicate Ordered<V>(t: Avl<V>)
  {
    match t
    case Nil => true
    case Node(k, _, _, l, r) =>
      && Ordered(l) && Ordered(r)
      && (forall x :: x in Content(l) ==> x < k)
      && (forall x :: x in Content(r) ==> k < x)
  }

  /** Every stored height is one more than the larger of its children's. */
  ghost predicate HeightsOk<V>(t: Avl<V>)
  {
    match t
    case Nil => true
    case Node(_, _, h, l, r) => HeightsOk(l) && HeightsOk(r) && h == Max(HeightOf(l), HeightOf(r)) + 1
  }

  /** The AVL invariant: correct heights and a balance factor in [-1, 1] at every node. */
  ghost predicate Balanced<V>(t: Avl<V>)
  {
    match t
    case Nil => true
    case Node(_, _, _, l, r) =>
      HeightsOk(t) && Balanced(l) && Balanced(r) && -1 <= BalanceFactor(t) <= 1
  }

  // ---------------------------------------------------------------------------
  // Rotations and rebalancing
  // ---------------------------------------------------------------------------

  /**
   * `RotateRight(y)`: the left child `x` becomes the subtree root, `y` its
   * right child, and `x`'s old right subtree moves under `y`; `y`'s height
   * is recomputed first, then `x`'s. The source dereferences `y.Left`.
   */
  function RotateRight<V>(y: Avl<V>): (x: Avl<V>)
    requires y.Node? && y.left.Node?
    ensures x.Node? && x.right.Node?
    ensures Inorder(x) == Inorder(y) && Content(x) == Content(y)
    ensures HeightsOk(y.left) && HeightsOk(y.right) ==> HeightsOk(x)
  {
    var l := y.left;
    var c1, c2, c3 := Content(l.left), Content(l.right), Content(y.right);
    MapUnionAssoc(c1 + map[l.key := l.payload], c2, map[y.key := y.payload], c3);
    Make(l.key, l.payload, l.left, Make(y.key, y.payload, l.right, y.right))
  }

  /** `RotateLeft(x)`: the mirror image of `RotateRight`. The source dereferences `x.Right`. */
  function RotateLeft<V>(x: Avl<V>): (y: Avl<V>)
    requires x.Node? && x.right.Node?
    ensures y.Node? && y.left.Node?
    ensures Inorder(y) == Inorder(x) && Content(y) == Content(x)
    ensures HeightsOk(x.left) && HeightsOk(x.right) ==> HeightsOk(y)
  {
    var r := x.right;
    var c1, c2, c3 := Content(x.left), Content(r.left), Content(r.right);
    MapUnionAssoc(c1 + map[x.key := x.payload], c2, map[r.key := r.payload], c3);
    Make(r.key, r.payload, Make(x.key, x.payload, x.left, r.left), r.right)
  }

  /** A right rotation keeps a search tree ordered. */
  lemma RotateRightOrdered<V>(y: Avl<V>)
    requires y.Node? && y.left.Node? && Ordered(y)
    ensures Ordered(RotateRight(y))
  {
    var l := y.left;
    var lower := Make(y.key, y.payload, l.right, y.right);
    forall x | x in Content(l.right) ensures x < y.key {
      assert x in Content(l);
    }
    assert Ordered(lower);
    assert l.key in Content(l);
    forall x | x in Content(lower) ensures l.key < x {
      if x in Content(l.right) {
      } else if x !in Content(y.right) {
        assert x == y.key;
      }
    }
  }

  /** A left rotation keeps a search tree ordered. */
  lemma RotateLeftOrdered<V>(x: Avl<V>)
    requires x.Node? && x.right.Node? && Ordered(x)
    ensures Ordered(RotateLeft(x))
  {
    var r := x.right;
    var lower := Make(x.key, x.payload, x.left, r.left);
    forall k | k in Content(r.left) ensures x.key < k {
      assert k in Content(r);
    }
    assert Ordered(lower);
    assert r.key in Content(r);
    forall k | k in Content(lower) ensures k < r.key {
      if k in Content(r.left) {
      } else if k !in Content(x.left) {
        assert k == x.key;
      }
    }
  }

  /** `(a + b) + m + c == a + (b + m + c)` for map unions. */
  lemma MapUnionAssoc<V>(a: map<int, V>, b: map<int, V>, m: map<int, V>, c: map<int, V>)
    ensures a + b + m + c == a + (b + m + c)
  {
  }

  /**
   * What `Balance` dereferences: a left-heavy node has a left child, and that
   * child has a right child when it leans right; the mirror for a right-heavy
   * node. Stored heights that are correct guarantee it.
   */
  ghost predicate CanBalance<V>(t: Avl<V>)
  {
    && t.Node?
    && (BalanceFactor(t) > 1 ==> t.left.Node? && (BalanceFactor(t.left) < 0 ==> t.left.right.Node?))
    && (BalanceFactor(t) < -1 ==> t.right.Node? && (BalanceFactor(t.right) > 0 ==> t.right.left.Node?))
  }

  /**
   * `Balance(node)`: with a balance factor above 1 rotate right, first
   * rotating the left child left when it leans right; below -1 the mirror
   * image; otherwise the node is returned as it is. The node's own stored
   * height is not refreshed before the outer rotation, as in the source.
   */
  function Balance<V>(t: Avl<V>): (r: Avl<V>)
    requires CanBalance(t)
    ensures r.Node?
    ensures Inorder(r) == Inorder(t) && Content(r) == Content(t)
    ensures HeightsOk(t) ==> HeightsOk(r)
  {
    var bf := BalanceFactor(t);
    if bf > 1 then
      var l := if BalanceFactor(t.left) < 0 then RotateLeft(t.left) else t.left;
      var t' := t.(left := l);
      assert Inorder(t') == Inorder(t) && Content(t') == Content(t);
      assert HeightsOk(t) ==> HeightsOk(t.left) && HeightsOk(t.left.left) && HeightsOk(t.left.right);
      assert HeightsOk(t) ==> HeightsOk(t'.left) && HeightsOk(t'.right);
      RotateRight(t')
    else if bf < -1 then
      var r := if BalanceFactor(t.right) > 0 then RotateRight(t.right) else t.right;
      var t' := t.(right := r);
      assert Inorder(t') == Inorder(t) && Content(t') == Content(t);
      assert HeightsOk(t) ==> HeightsOk(t.right) && HeightsOk(t.right.left) && HeightsOk(t.right.right);
      assert HeightsOk(t) ==> HeightsOk(t'.left) && HeightsOk(t'.right);
      RotateLeft(t')
    else
      t
  }

  /** `Balance` keeps a search tree ordered. */
  lemma BalanceOrdered<V>(t: Avl<V>)
    requires CanBalance(t) && Ordered(t)
    ensures Ordered(Balance(t))
  {
    var bf := BalanceFactor(t);
    if bf > 1 {
      var l := t.left;
      if BalanceFactor(l) < 0 {
        RotateLeftOrdered(l);
        var t' := t.(left := RotateLeft(l));
        assert Content(t'.left) == Content(l);
        RotateRightOrdered(t');
      } else {
        RotateRightOrdered(t);
      }
    } else if bf < -1 {
      var r := t.right;
      if BalanceFactor(r) > 0 {
        RotateRightOrdered(r);
        var t' := t.(right := RotateRight(r));
        assert Content(t'.right) == Content(r);
        RotateLeftOrdered(t');
      } else {
        RotateLeftOrdered(t);
      }
    }
  }

  /**
   * `Balance` restores the AVL invariant at a node whose subtrees are AVL
   * trees differing in height by at most two, and the result is no lower
   * than the taller subtree and at most one above it; a node already in
   * balance is returned unchanged.
   */
  lemma BalanceRestores<V>(t: Avl<V>)
    requires t.Node? && HeightsOk(t) && Balanced(t.left) && Balanced(t.right)
    requires -2 <= BalanceFactor(t) <= 2
    ensures Balanced(Balance(t))
    ensures var m := Max(HeightOf(t.left), HeightOf(t.right));
      m <= HeightOf(Balance(t)) <= m + 1
    ensures -1 <= BalanceFactor(t) <= 1 ==> Balance(t) == t
  {
    var bf := BalanceFactor(t);
    if bf == 2 {
      if BalanceFactor(t.left) < 0 {
        LeftRightCase(t);
      } else {
        LeftLeftCase(t);
      }
    } else if bf == -2 {
      if BalanceFactor(t.right) > 0 {
        RightLeftCase(t);
      } else {
        RightRightCase(t);
      }
    }
  }

  /** Joining two AVL trees whose heights differ by at most one gives an AVL tree. */
  lemma MakeBalanced<V>(key: int, payload: V, l: Avl<V>, r: Avl<V>)
    requires Balanced(l) && Balanced(r) && -1 <= HeightOf(l) - HeightOf(r) <= 1
    ensures Balanced(Make(key, payload, l, r))
  {
  }

  /** The tree a left-right double rotation builds. */
  lemma LeftRightShape<V>(t: Avl<V>)
    requires t.Node? && t.left.Node? && t.left.right.Node?
    ensures var l := t.left; var m := l.right;
      RotateRight(t.(left := RotateLeft(l)))
      == Make(m.key, m.payload, Make(l.key, l.payload, l.left, m.left), Make(t.key, t.payload, m.right, t.right))
  {
  }

  /** The tree a right-left double rotation builds. */
  lemma RightLeftShape<V>(t: Avl<V>)
    requires t.Node? && t.right.Node? && t.right.left.Node?
    ensures var r := t.right; var m := r.left;
      RotateLeft(t.(right := RotateRight(r)))
      == Make(m.key, m.payload, Make(t.key, t.payload, t.left, m.left), Make(r.key, r.payload, m.right, r.right))
  {
  }

  /** A left-heavy node whose left child does not lean right: one right rotation. */
  lemma LeftLeftCase<V>(t: Avl<V>)
    requires t.Node? && HeightsOk(t) && Balanced(t.left) && Balanced(t.right)
    requires BalanceFactor(t) == 2 && BalanceFactor(t.left) >= 0
    ensures Balanced(RotateRight(t))
    ensures HeightOf(t.left) <= HeightOf(RotateRight(t)) <= HeightOf(t.left) + 1
  {
    match t
    case Node(k, v, _, Node(lk, lv, _, a, b), c) =>
      assert Balanced(a) && Balanced(b);
      MakeBalanced(k, v, b, c);
      MakeBalanced(lk, lv, a, Make(k, v, b, c));
  }

  /** A left-heavy node whose left child leans right: rotate the child left, then the node right. */
  lemma LeftRightCase<V>(t: Avl<V>)
    requires t.Node? && HeightsOk(t) && Balanced(t.left) && Balanced(t.right)
    requires BalanceFactor(t) == 2 && BalanceFactor(t.left) < 0
    ensures Balanced(RotateRight(t.(left := RotateLeft(t.left))))
    ensures HeightOf(RotateRight(t.(left := RotateLeft(t.left)))) == HeightOf(t.left)
  {
    LeftRightShape(t);
    match t
    case Node(k, v, _, Node(lk, lv, _, a, Node(mk, mv, _, b, c)), d) =>
      assert HeightOf(a) == HeightOf(d);
      assert Balanced(b) && Balanced(c);
      MakeBalanced(lk, lv, a, b);
      MakeBalanced(k, v, c, d);
      MakeBalanced(mk, mv, Make(lk, lv, a, b), Make(k, v, c, d));
  }

  /** A right-heavy node whose right child does not lean left: one left rotation. */
  lemma RightRightCase<V>(t: Avl<V>)
    requires t.Node? && HeightsOk(t) && Balanced(t.left) && Balanced(t.right)
    requires BalanceFactor(t) == -2 && BalanceFactor(t.right) <= 0
    ensures Balanced(RotateLeft(t))
    ensures HeightOf(t.right) <= HeightOf(RotateLeft(t)) <= HeightOf(t.right) + 1
  {
    match t
    case Node(k, v, _, a, Node(rk, rv, _, b, c)) =>
      assert Balanced(b) && Balanced(c);
      MakeBalanced(k, v, a, b);
      MakeBalanced(rk, rv, Make(k, v, a, b), c);
  }

  /** A right-heavy node whose right child leans left: rotate the child right, then the node left. */
  lemma RightLeftCase<V>(t: Avl<V>)
    requires t.Node? && HeightsOk(t) && Balanced(t.left) && Balanced(t.right)
    requires BalanceFactor(t) == -2 && BalanceFactor(t.right) > 0
    ensures Balanced(RotateLeft(t.(right := RotateRight(t.right))))
    ensures HeightOf(RotateLeft(t.(right := RotateRight(t.right)))) == HeightOf(t.right)
  {
    RightLeftShape(t);
    match t
    case Node(k, v, _, a, Node(rk, rv, _, Node(mk, mv, _, b, c), d)) =>
      assert HeightOf(d) == HeightOf(a);
      assert Balanced(b) && Balanced(c);
      MakeBalanced(k, v, a, b);
      MakeBalanced(rk, rv, c, d);
      MakeBalanced(mk, mv, Make(k, v, a, b), Make(rk, rv, c, d));
  }

  // ---------------------------------------------------------------------------
  // Insert
  // ---------------------------------------------------------------------------

  /**
   * `Insert(root, key, m)`: a null subtree becomes a new node of height 1;
   * otherwise descend left for a smaller key and right for a larger one,
   * then refresh the height and rebalance; an equal key returns the subtree
   * as it is. Stored heights are assumed correct, as they are for every tree
   * built from the empty one by `Insert` and `Delete` (`Run` below).
   */
  function Insert<V>(t: Avl<V>, key: int, payload: V): (r: Avl<V>)
    requires HeightsOk(t)
    ensures r.Node? && HeightsOk(r)
  {
    match t
    case Nil => Node(key, payload, 1, Nil, Nil)
    case Node(k, v, _, l, rt) =>
      if key < k then Balance(Make(k, v, Insert(l, key, payload), rt))
      else if key > k then Balance(Make(k, v, l, Insert(rt, key, payload)))
      else t
  }

  /**
   * On a search tree, `Insert` keeps the order and adds `key` with its
   * payload when the key is absent; when it is present the table, old
   * payload included, is unchanged.
   */
  lemma {:induction false} InsertContent<V>(t: Avl<V>, key: int, payload: V)
    requires HeightsOk(t) && Ordered(t)
    ensures Ordered(Insert(t, key, payload))
    ensures Content(Insert(t, key, payload))
         == if key in Content(t) then Content(t) else Content(t)[key := payload]
  {
    match t
    case Nil =>
    case Node(k, v, _, l, rt) =>
      if key < k {
        var l' := Insert(l, key, payload);
        InsertContent(l, key, payload);
        InsertLeftStep(t, key, payload, l');
        assert Insert(t, key, payload) == Balance(Make(k, v, l', rt));
      } else if key > k {
        var r' := Insert(rt, key, payload);
        InsertContent(rt, key, payload);
        InsertRightStep(t, key, payload, r');
        assert Insert(t, key, payload) == Balance(Make(k, v, l, r'));
      }
  }

  /** Inserting into the left subtree, then rebalancing, inserts into the whole table. */
  lemma InsertLeftStep<V>(t: Avl<V>, key: int, payload: V, l': Avl<V>)
    requires t.Node? && Ordered(t) && key < t.key
    requires Ordered(l') && Content(l') == if key in Content(t.left) then Content(t.left) else Content(t.left)[key := payload]
    requires CanBalance(Make(t.key, t.payload, l', t.right))
    ensures Ordered(Balance(Make(t.key, t.payload, l', t.right)))
    ensures Content(Balance(Make(t.key, t.payload, l', t.right)))
         == if key in Content(t) then Content(t) else Content(t)[key := payload]
  {
    var cl, m, cr := Content(t.left), map[t.key := t.payload], Content(t.right);
    assert key !in m && key !in cr;
    if key !in cl {
      UpdateLeft(cl, m, cr, key, payload);
    }
    JoinOrdered(t.key, t.payload, l', t.right);
  }

  /** Inserting into the right subtree, then rebalancing, inserts into the whole table. */
  lemma InsertRightStep<V>(t: Avl<V>, key: int, payload: V, r': Avl<V>)
    requires t.Node? && Ordered(t) && key > t.key
    requires Ordered(r') && Content(r') == if key in Content(t.right) then Content(t.right) else Content(t.right)[key := payload]
    requires CanBalance(Make(t.key, t.payload, t.left, r'))
    ensures Ordered(Balance(Make(t.key, t.payload, t.left, r')))
    ensures Content(Balance(Make(t.key, t.payload, t.left, r')))
         == if key in Content(t) then Content(t) else Content(t)[key := payload]
  {
    var cl, m, cr := Content(t.left), map[t.key := t.payload], Content(t.right);
    assert key !in cl && key !in m;
    if key !in cr {
      UpdateRight(cl + m, cr, key, payload);
    }
    JoinOrdered(t.key, t.payload, t.left, r');
  }

  /** Joining two ordered subtrees on either side of a key and rebalancing gives an ordered tree with their tables. */
  lemma JoinOrdered<V>(k: int, v: V, a: Avl<V>, b: Avl<V>)
    requires CanBalance(Make(k, v, a, b)) && Ordered(a) && Ordered(b)
    requires forall x :: x in Content(a) ==> x < k
    requires forall x :: x in Content(b) ==> k < x
    ensures Ordered(Balance(Make(k, v, a, b)))
    ensures Content(Balance(Make(k, v, a, b))) == Content(a) + map[k := v] + Content(b)
  {
    BalanceOrdered(Make(k, v, a, b));
  }

  /** On an ordered AVL tree, inserting a key it already holds gives back the very same tree. */
  lemma {:induction false} InsertPresent<V>(t: Avl<V>, key: int, payload: V)
    requires Balanced(t) && Ordered(t) && key in Content(t)
    ensures Insert(t, key, payload) == t
  {
    match t
    case Node(k, v, _, l, rt) =>
      if key < k {
        assert key in Content(l);
        InsertPresent(l, key, payload);
        assert Make(k, v, l, rt) == t;
        BalanceRestores(t);
      } else if key > k {
        assert key in Content(rt);
        InsertPresent(rt, key, payload);
        assert Make(k, v, l, rt) == t;
        BalanceRestores(t);
      }
  }

  lemma UpdateLeft<V>(a: map<int, V>, m: map<int, V>, c: map<int, V>, key: int, p: V)
    requires key !in m && key !in c
    ensures a[key := p] + m + c == (a + m + c)[key := p]
  {
  }

  lemma UpdateRight<V>(a: map<int, V>, c: map<int, V>, key: int, p: V)
    ensures a + c[key := p] == (a + c)[key := p]
  {
  }

  lemma RemoveLeft<V>(a: map<int, V>, m: map<int, V>, c: map<int, V>, key: int)
    requires key !in m && key !in c
    ensures (a - {key}) + m + c == (a + m + c) - {key}
  {
  }

  lemma RemoveRight<V>(a: map<int, V>, c: map<int, V>, key: int)
    requires key !in a
    ensures a + (c - {key}) == (a + c) - {key}
  {
  }

  /**
   * Replacing the entry of `k` by the successor entry `(s, w)` of the right
   * table, and removing `s` from that table, removes `k` from the whole table.
   */
  lemma SuccessorSwap<V>(a: map<int, V>, k: int, v: V, c: map<int, V>, s: int, w: V)
    requires k !in a && k !in c && s !in a && s in c && c[s] == w
    ensures a + map[s := w] + (c - {s}) == (a + map[k := v] + c) - {k}
  {
  }

  /** `Insert` keeps the AVL invariant and raises the height by at most one. */
  lemma {:induction false} InsertBalanced<V>(t: Avl<V>, key: int, payload: V)
    requires Balanced(t)
    ensures Balanced(Insert(t, key, payload))
    ensures HeightOf(t) <= HeightOf(Insert(t, key, payload)) <= HeightOf(t) + 1
  {
    match t
    case Nil =>
    case Node(k, v, _, l, rt) =>
      if key < k {
        InsertBalanced(l, key, payload);
        BalanceRestores(Make(k, v, Insert(l, key, payload), rt));
      } else if key > k {
        InsertBalanced(rt, key, payload);
        BalanceRestores(Make(k, v, l, Insert(rt, key, payload)));
      }
  }

  // ---------------------------------------------------------------------------
  // Delete
  // ---------------------------------------------------------------------------

  /** `MinValueNode(root)`: follow left children to the leftmost node; its key and payload. */
  function MinValueNode<V>(t: Avl<V>): (m: (int, V))
    requires t.Node?
    ensures m.0 in Content(t)
    ensures Ordered(t) ==> Content(t)[m.0] == m.1 && forall x :: x in Content(t) ==> m.0 <= x
  {
    if t.left.Nil? then (t.key, t.payload) else MinValueNode(t.left)
  }

  /**
   * `Delete(root, key)`: a null subtree stays null; descend by comparison;
   * at the key, a node lacking a child is replaced by its other child
   * (`root.Left ?? root.Right`), and a node with two children takes the key
   * and payload of the leftmost node of its right subtree, which is then
   * deleted from the right subtree. Every node left on the path has its
   * height refreshed and is rebalanced.
   */
  function Delete<V>(t: Avl<V>, key: int): (r: Avl<V>)
    requires HeightsOk(t)
    ensures HeightsOk(r)
  {
    match t
    case Nil => Nil
    case Node(k, v, _, l, rt) =>
      if key < k then Balance(Make(k, v, Delete(l, key), rt))
      else if key > k then Balance(Make(k, v, l, Delete(rt, key)))
      else if l.Nil? || rt.Nil? then (if l.Node? then l else rt)
      else
        var m := MinValueNode(rt);
        Balance(Make(m.0, m.1, l, Delete(rt, m.0)))
  }

  /** On a search tree, `Delete` keeps the order and removes exactly `key` from the table. */
  lemma {:induction false} DeleteContent<V>(t: Avl<V>, key: int)
    requires HeightsOk(t) && Ordered(t)
    ensures Ordered(Delete(t, key))
    ensures Content(Delete(t, key)) == Content(t) - {key}
  {
    match t
    case Nil =>
    case Node(k, v, _, l, rt) =>
      if key < k {
        var l' := Delete(l, key);
        DeleteContent(l, key);
        DeleteLeftStep(t, key, l');
        assert Delete(t, key) == Balance(Make(k, v, l', rt));
      } else if key > k {
        var r' := Delete(rt, key);
        DeleteContent(rt, key);
        DeleteRightStep(t, key, r');
        assert Delete(t, key) == Balance(Make(k, v, l, r'));
      } else if l.Nil? || rt.Nil? {
        DeleteHere(t);
        assert Delete(t, key) == if l.Node? then l else rt;
      } else {
        DeleteContent(rt, MinValueNode(rt).0);
        DeleteWithSuccessor(t);
      }
  }

  /** Deleting from the left subtree, then rebalancing, deletes from the whole table. */
  lemma DeleteLeftStep<V>(t: Avl<V>, key: int, l': Avl<V>)
    requires t.Node? && Ordered(t) && key < t.key
    requires Ordered(l') && Content(l') == Content(t.left) - {key}
    requires CanBalance(Make(t.key, t.payload, l', t.right))
    ensures Ordered(Balance(Make(t.key, t.payload, l', t.right)))
    ensures Content(Balance(Make(t.key, t.payload, l', t.right))) == Content(t) - {key}
  {
    var cl, m, cr := Content(t.left), map[t.key := t.payload], Content(t.right);
    assert key !in m && key !in cr;
    RemoveLeft(cl, m, cr, key);
    JoinOrdered(t.key, t.payload, l', t.right);
  }

  /** Deleting from the right subtree, then rebalancing, deletes from the whole table. */
  lemma DeleteRightStep<V>(t: Avl<V>, key: int, r': Avl<V>)
    requires t.Node? && Ordered(t) && key > t.key
    requires Ordered(r') && Content(r') == Content(t.right) - {key}
    requires CanBalance(Make(t.key, t.payload, t.left, r'))
    ensures Ordered(Balance(Make(t.key, t.payload, t.left, r')))
    ensures Content(Balance(Make(t.key, t.payload, t.left, r'))) == Content(t) - {key}
  {
    var cl, m, cr := Content(t.left), map[t.key := t.payload], Content(t.right);
    assert key !in cl && key !in m;
    RemoveRight(cl + m, cr, key);
    JoinOrdered(t.key, t.payload, t.left, r');
  }

  /** Deleting the key of a node with at most one child leaves that child, which holds the rest of the table. */
  lemma DeleteHere<V>(t: Avl<V>)
    requires t.Node? && (t.left.Nil? || t.right.Nil?) && Ordered(t)
    ensures var c := if t.left.Node? then t.left else t.right;
      Ordered(c) && Content(c) == Content(t) - {t.key}
  {
    var cl, m, cr := Content(t.left), map[t.key := t.payload], Content(t.right);
    assert t.key !in cl && t.key !in cr;
    if t.left.Node? {
      assert cr == map[];
      assert (cl + m + cr) - {t.key} == cl;
    } else {
      assert cl == map[];
      assert (cl + m + cr) - {t.key} == cr;
    }
  }

  /**
   * The two-children case of `Delete`: given what deleting the successor
   * from the right subtree does, the node's own key leaves the table and
   * the order is kept.
   */
  lemma DeleteWithSuccessor<V>(t: Avl<V>)
    requires t.Node? && t.left.Node? && t.right.Node? && HeightsOk(t) && Ordered(t)
    requires var s := MinValueNode(t.right).0;
      Ordered(Delete(t.right, s)) && Content(Delete(t.right, s)) == Content(t.right) - {s}
    ensures Ordered(Delete(t, t.key))
    ensures Content(Delete(t, t.key)) == Content(t) - {t.key}
  {
    var k, l, rt := t.key, t.left, t.right;
    var cl, cr := Content(l), Content(rt);
    var s := MinValueNode(rt);
    var r' := Delete(rt, s.0);
    assert Delete(t, k) == Balance(Make(s.0, s.1, l, r'));
    assert k !in cl && k !in cr && s.0 !in cl;
    SuccessorSwap(cl, k, t.payload, cr, s.0, s.1);
    assert Ordered(rt) && Content(r') == cr - {s.0};
    assert forall x :: x in cr ==> s.0 <= x;
    forall x | x in Content(r') ensures s.0 < x {
      assert x in cr && x != s.0;
    }
    BalanceOrdered(Make(s.0, s.1, l, r'));
  }

  /** `Delete` keeps the AVL invariant and lowers the height by at most one. */
  lemma {:induction false} DeleteBalanced<V>(t: Avl<V>, key: int)
    requires Balanced(t)
    ensures Balanced(Delete(t, key))
    ensures HeightOf(t) <= HeightOf(Delete(t, key)) + 1 && HeightOf(Delete(t, key)) <= HeightOf(t)
  {
    match t
    case Nil =>
    case Node(k, v, _, l, rt) =>
      if key < k {
        DeleteBalanced(l, key);
        ShrunkJoin(t, k, v, Delete(l, key), rt);
      } else if key > k {
        DeleteBalanced(rt, key);
        ShrunkJoin(t, k, v, l, Delete(rt, key));
      } else if l.Nil? || rt.Nil? {
      } else {
        var m := MinValueNode(rt);
        DeleteBalanced(rt, m.0);
        ShrunkJoin(t, m.0, m.1, l, Delete(rt, m.0));
      }
  }

  /**
   * Rebalancing a node whose subtrees are those of the AVL tree `t`, each
   * possibly one lower, gives an AVL tree at most one lower than `t`.
   */
  lemma ShrunkJoin<V>(t: Avl<V>, k: int, v: V, a: Avl<V>, b: Avl<V>)
    requires t.Node? && Balanced(t) && Balanced(a) && Balanced(b)
    requires HeightOf(t.left) <= HeightOf(a) + 1 && HeightOf(a) <= HeightOf(t.left)
    requires HeightOf(t.right) <= HeightOf(b) + 1 && HeightOf(b) <= HeightOf(t.right)
    ensures var r := Balance(Make(k, v, a, b));
      Balanced(r) && HeightOf(t) <= HeightOf(r) + 1 && HeightOf(r) <= HeightOf(t)
  {
    BalanceRestores(Make(k, v, a, b));
  }

  /** Deleting a key an AVL tree does not hold gives back the very same tree. */
  lemma {:induction false} DeleteAbsent<V>(t: Avl<V>, key: int)
    requires Balanced(t) && key !in Content(t)
    ensures Delete(t, key) == t
  {
    match t
    case Nil =>
    case Node(k, v, _, l, rt) =>
      if key < k {
        DeleteAbsent(l, key);
        assert Make(k, v, l, rt) == t;
        BalanceRestores(t);
      } else {
        assert key > k by {
          assert k in Content(t);
        }
        DeleteAbsent(rt, key);
        assert Make(k, v, l, rt) == t;
        BalanceRestores(t);
      }
  }

  // ---------------------------------------------------------------------------
  // The public operations
  // ---------------------------------------------------------------------------

  /** One call of the public `Insert(key, m)` or `Delete(key)`. */
  datatype Op<V> = Ins(key: int, payload: V) | Del(key: int)

  /** The tree after applying `ops` in order, each as `root = Insert(root, ..)` or `root = Delete(root, ..)`. */
  function Run<V>(t: Avl<V>, ops: seq<Op<V>>): (r: Avl<V>)
    requires HeightsOk(t)
    ensures HeightsOk(r)
    decreases |ops|
  {
    if ops == [] then t
    else
      var next := match ops[0]
        case Ins(k, v) => Insert(t, k, v)
        case Del(k) => Delete(t, k);
      Run(next, ops[1..])
  }

  /**
   * Every tree the public operations build from the empty tree is an
   * ordered AVL tree, so the heights `Insert` and `Delete` rely on are correct.
   */
  lemma {:induction false} RunKeepsInvariant<V>(t: Avl<V>, ops: seq<Op<V>>)
    requires Balanced(t) && Ordered(t)
    ensures Balanced(Run(t, ops)) && Ordered(Run(t, ops))
    decreases |ops|
  {
    if ops != [] {
      match ops[0]
      case Ins(k, v) =>
        InsertBalanced(t, k, v);
        InsertContent(t, k, v);
        RunKeepsInvariant(Insert(t, k, v), ops[1..]);
      case Del(k) =>
        DeleteBalanced(t, k);
        DeleteContent(t, k);
        RunKeepsInvariant(Delete(t, k), ops[1..]);
    }
  }
}
