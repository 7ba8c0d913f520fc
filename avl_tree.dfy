/**
 * Node level of the AVL tree set: the shape of a tree of TreeNodes, the
 * recursive queries, the four rotations, `balance`, `balanceFactor` and the
 * recursive insertion. A child pointer is either NULL (`Leaf`) or a node that
 * exclusively owns its two subtrees, so a tree is a value. The source rebinds
 * a `TreeNode *&` slot in place; here every such operation returns the new
 * subtree and the caller stores it in the slot.
 */
module AVLTree {

  datatype Tree = Leaf | Node(left: Tree, element: int, right: Tree)

  // ---------------------------------------------------------------------------
  // Reference views of a tree
  // ---------------------------------------------------------------------------

  /** Non-decreasing. */
  ghost predicate Sorted(s: seq<int>)
  {
    forall i, j :: 0 <= i < j < |s| ==> s[i] <= s[j]
  }

  /** The search-tree invariant: the inorder sequence is non-decreasing. */
  ghost predicate Ordered(t: Tree)
  {
    Sorted(Inorder(t))
  }

  /** Every node's children differ in height by at most one. */
  ghost predicate Balanced(t: Tree)
  {
    match t
    case Leaf => true
    case Node(l, _, r) => Balanced(l) && Balanced(r) && -1 <= Height(l) - Height(r) <= 1
  }

  /** A degenerate tree: no node has a left child. */
  ghost predicate RightChain(t: Tree)
  {
    match t
    case Leaf => true
    case Node(l, _, r) => l.Leaf? && RightChain(r)
  }

  // ---------------------------------------------------------------------------
  // Queries
  // ---------------------------------------------------------------------------

  /** recursiveHeight: an empty slot has height -1, a node is one above its taller child. */
  function Height(t: Tree): (h: int)
    ensures h >= -1
    ensures h == -1 <==> t.Leaf?
  {
    match t
    case Leaf => -1
    case Node(l, _, r) =>
      var lh := Height(l);
      var rh := Height(r);
      1 + (if lh < rh then rh else lh)
  }

  /** recursiveSize: the number of nodes. */
  function Size(t: Tree): (n: nat)
    ensures n == 0 <==> t.Leaf?
  {
    match t
    case Leaf => 0
    case Node(l, _, r) => 1 + Size(l) + Size(r)
  }

  /** containsRecursive: equality is tested first, then the search goes left iff the node's element is greater. */
  function Contains(t: Tree, e: int): (b: bool)
    ensures b ==> e in Inorder(t)
  {
    match t
    case Leaf => false
    case Node(l, x, r) =>
      if x == e then true
      else if x > e then Contains(l, e)
      else Contains(r, e)
  }

  /** recursivePreorder: node, then left subtree, then right subtree. */
  function Preorder(t: Tree): (s: seq<int>)
  {
    match t
    case Leaf => []
    case Node(l, x, r) => [x] + Preorder(l) + Preorder(r)
  }

  /** recursiveInorder: left subtree, then node, then right subtree. */
  function Inorder(t: Tree): (s: seq<int>)
  {
    match t
    case Leaf => []
    case Node(l, x, r) => Inorder(l) + [x] + Inorder(r)
  }

  /** recursivePostorder: left subtree, then right subtree, then node. */
  function Postorder(t: Tree): (s: seq<int>)
  {
    match t
    case Leaf => []
    case Node(l, x, r) => Postorder(l) + Postorder(r) + [x]
  }

  // ---------------------------------------------------------------------------
  // Rotations and rebalancing
  // ---------------------------------------------------------------------------

  /** rotateLeft: the right child is promoted and its left subtree moves under the old root. */
  function RotateLeft(t: Tree): (r: Tree)
    requires t.Node? && t.right.Node?
    ensures r.Node? && Inorder(r) == Inorder(t)
  {
    var Node(a, x, Node(b, y, c)) := t;
    var sa, sb, sc := Inorder(a), Inorder(b), Inorder(c);
    assert sa + [x] + (sb + [y] + sc) == (sa + [x] + sb) + [y] + sc;
    Node(Node(a, x, b), y, c)
  }

  /** rotateRight: the left child is promoted and its right subtree moves under the old root. */
  function RotateRight(t: Tree): (r: Tree)
    requires t.Node? && t.left.Node?
    ensures r.Node? && Inorder(r) == Inorder(t)
  {
    var Node(Node(a, y, b), x, c) := t;
    var sa, sb, sc := Inorder(a), Inorder(b), Inorder(c);
    assert (sa + [y] + sb) + [x] + sc == sa + [y] + (sb + [x] + sc);
    Node(a, y, Node(b, x, c))
  }

  /** rotateRightLeft: rotate the right child right, store it back, then rotate the node left. */
  function RotateRightLeft(t: Tree): (r: Tree)
    requires t.Node? && t.right.Node? && t.right.left.Node?
    ensures r.Node? && Inorder(r) == Inorder(t)
  {
    RotateLeft(Node(t.left, t.element, RotateRight(t.right)))
  }

  /** rotateLeftRight: rotate the left child left, store it back, then rotate the node right. */
  function RotateLeftRight(t: Tree): (r: Tree)
    requires t.Node? && t.left.Node? && t.left.right.Node?
    ensures r.Node? && Inorder(r) == Inorder(t)
  {
    RotateRight(Node(RotateLeft(t.left), t.element, t.right))
  }

  /**
   * balanceFactor: computed in three branches (a missing left child, a
   * missing right child, both present); all three agree with the height
   * difference of the children, an empty child counting as -1.
   */
  function BalanceFactor(t: Tree): (f: int)
    requires t.Node?
    ensures f == Height(t.left) - Height(t.right)
  {
    var leftHeight := Height(t.left);
    var rightHeight := Height(t.right);
    if t.left.Leaf? then -(rightHeight + 1)
    else if t.right.Leaf? then leftHeight + 1
    else leftHeight - rightHeight
  }

  /**
   * balance: a factor above 1 rotates right when the left child leans left
   * (strictly) and does a left-right rotation otherwise; a factor below -1
   * rotates left when the right child leans right (strictly) and does a
   * right-left rotation otherwise. The factor is computed once, so at most
   * one of the two cases runs.
   */
  function Balance(t: Tree): (r: Tree)
    requires t.Node?
    ensures r.Node? && Inorder(r) == Inorder(t)
    ensures -1 <= Height(t.left) - Height(t.right) <= 1 ==> r == t
  {
    var factor := BalanceFactor(t);
    if factor > 1 then
      if BalanceFactor(t.left) > 0 then RotateRight(t) else RotateLeftRight(t)
    else if factor < -1 then
      if BalanceFactor(t.right) < 0 then RotateLeft(t) else RotateRightLeft(t)
    else
      t
  }

  // ---------------------------------------------------------------------------
  // Insertion
  // ---------------------------------------------------------------------------

  /**
   * recursiveAdd on a non-empty slot: go left iff the node's element is
   * greater than `e` (so ties go right), attach a new leaf at the first empty
   * child slot, and rebalance the node on the way back up when balancing is
   * on and the recursion went below an existing child. There is no equality
   * test, so an element already present is inserted again.
   */
  function RecursiveAdd(t: Tree, e: int, shouldBalance: bool): (r: Tree)
    requires t.Node?
    ensures r.Node?
  {
    var Node(l, x, rt) := t;
    if x > e then
      if l.Node? then
        var u := Node(RecursiveAdd(l, e, shouldBalance), x, rt);
        if shouldBalance then Balance(u) else u
      else
        Node(Node(Leaf, e, Leaf), x, rt)
    else
      if rt.Node? then
        var u := Node(l, x, RecursiveAdd(rt, e, shouldBalance));
        if shouldBalance then Balance(u) else u
      else
        Node(l, x, Node(Leaf, e, Leaf))
  }

  /** add: an empty tree becomes a single leaf; otherwise recursiveAdd on the root slot. */
  function Add(t: Tree, e: int, shouldBalance: bool): (r: Tree)
    ensures r.Node?
  {
    if t.Leaf? then Node(Leaf, e, Leaf) else RecursiveAdd(t, e, shouldBalance)
  }

  /** The tree obtained by calling add once per element of `xs`, in order. */
  function AddAll(t: Tree, xs: seq<int>, shouldBalance: bool): Tree
    decreases |xs|
  {
    if xs == [] then t
    else
      var n := |xs| - 1;
      Add(AddAll(t, xs[..n], shouldBalance), xs[n], shouldBalance)
  }

  /** Adding the first i + 1 elements is adding the first i, then element i. */
  lemma AddAllStep(t: Tree, xs: seq<int>, i: nat, shouldBalance: bool)
    requires i < |xs|
    ensures AddAll(t, xs[..i + 1], shouldBalance) == Add(AddAll(t, xs[..i], shouldBalance), xs[i], shouldBalance)
  {
    assert xs[..i + 1][..i] == xs[..i];
  }

  /** Reference for insertion into a sorted sequence: `e` goes just before the first element greater than it. */
  function InsertSorted(s: seq<int>, e: int): seq<int>
  {
    if s == [] then [e]
    else if s[0] > e then [e] + s
    else [s[0]] + InsertSorted(s[1..], e)
  }

  // ---------------------------------------------------------------------------
  // Lemmas: sorted sequences
  // ---------------------------------------------------------------------------

  lemma SortedSplit(a: seq<int>, x: int, b: seq<int>)
    requires Sorted(a + [x] + b)
    ensures Sorted(a) && Sorted(b)
    ensures forall y :: y in a ==> y <= x
    ensures forall y :: y in b ==> x <= y
  {
    var s := a + [x] + b;
    assert s[|a|] == x;
    forall i, j | 0 <= i < j < |a| ensures a[i] <= a[j] {
      assert s[i] == a[i] && s[j] == a[j];
    }
    forall i, j | 0 <= i < j < |b| ensures b[i] <= b[j] {
      assert s[|a| + 1 + i] == b[i] && s[|a| + 1 + j] == b[j];
    }
    forall y | y in a ensures y <= x {
      var i :| 0 <= i < |a| && a[i] == y;
      assert s[i] == y;
    }
    forall y | y in b ensures x <= y {
      var i :| 0 <= i < |b| && b[i] == y;
      assert s[|a| + 1 + i] == y;
    }
  }

  /** Splicing adds exactly one copy of `e`. */
  lemma {:induction false} InsertSortedElements(s: seq<int>, e: int)
    ensures multiset(InsertSorted(s, e)) == multiset(s) + multiset{e}
  {
    if s != [] && s[0] <= e {
      InsertSortedElements(s[1..], e);
      assert s == [s[0]] + s[1..];
    }
  }

  lemma {:induction false} InsertSortedKeepsSorted(s: seq<int>, e: int)
    requires Sorted(s)
    ensures Sorted(InsertSorted(s, e))
    ensures InsertSorted(s, e)[0] == if s != [] && s[0] <= e then s[0] else e
  {
    if s != [] && s[0] <= e {
      var tail := s[1..];
      assert Sorted(tail) by {
        forall i, j | 0 <= i < j < |tail| ensures tail[i] <= tail[j] {
          assert tail[i] == s[i + 1] && tail[j] == s[j + 1];
        }
      }
      InsertSortedKeepsSorted(tail, e);
      var rest := InsertSorted(tail, e);
      assert s[0] <= rest[0] by {
        if tail != [] { assert tail[0] == s[1]; }
      }
      SortedCons(s[0], rest);
    } else if s != [] {
      SortedCons(e, s);
    }
  }

  lemma SortedCons(a: int, s: seq<int>)
    requires Sorted(s) && (s != [] ==> a <= s[0])
    ensures Sorted([a] + s)
  {
    var r := [a] + s;
    forall i, j | 0 <= i < j < |r| ensures r[i] <= r[j] {
      assert r[j] == s[j - 1];
      if i == 0 {
        assert s[0] <= s[j - 1] || j == 1;
      } else {
        assert r[i] == s[i - 1];
      }
    }
  }

  /** Splicing `e` into `a + b` where every element of `a` is at most `e` only touches `b`. */
  lemma {:induction false} InsertSortedPastPrefix(a: seq<int>, b: seq<int>, e: int)
    requires forall y :: y in a ==> y <= e
    ensures InsertSorted(a + b, e) == a + InsertSorted(b, e)
  {
    if a != [] {
      assert (a + b)[0] == a[0];
      assert (a + b)[1..] == a[1..] + b;
      assert a[0] in a;
      forall y | y in a[1..] ensures y <= e {
        assert y in a;
      }
      InsertSortedPastPrefix(a[1..], b, e);
      assert a == [a[0]] + a[1..];
      assert [a[0]] + (a[1..] + InsertSorted(b, e)) == ([a[0]] + a[1..]) + InsertSorted(b, e);
    } else {
      assert a + b == b;
    }
  }

  /** Splicing `e` into `a + b` where `b` starts above `e` only touches `a`. */
  lemma {:induction false} InsertSortedBeforeSuffix(a: seq<int>, b: seq<int>, e: int)
    requires b != [] && b[0] > e
    ensures InsertSorted(a + b, e) == InsertSorted(a, e) + b
  {
    if a == [] {
      assert a + b == b;
    } else {
      assert (a + b)[0] == a[0];
      if a[0] <= e {
        assert (a + b)[1..] == a[1..] + b;
        InsertSortedBeforeSuffix(a[1..], b, e);
      }
    }
  }

  // ---------------------------------------------------------------------------
  // Lemmas: queries
  // ---------------------------------------------------------------------------

  /** Under the search-tree invariant `contains` is exact: it finds `e` iff `e` occurs in the inorder sequence. */
  lemma {:induction false} ContainsIffInInorder(t: Tree, e: int)
    requires Ordered(t)
    ensures Contains(t, e) <==> e in Inorder(t)
  {
    if t.Node? {
      var Node(l, x, r) := t;
      SortedSplit(Inorder(l), x, Inorder(r));
      if x > e {
        ContainsIffInInorder(l, e);
        assert e !in Inorder(r);
      } else if x < e {
        ContainsIffInInorder(r, e);
        assert e !in Inorder(l);
      }
    }
  }

  /** The three traversals visit the same nodes, each exactly once, in different orders. */
  lemma {:induction false} TraversalsAgree(t: Tree)
    ensures multiset(Preorder(t)) == multiset(Inorder(t)) == multiset(Postorder(t))
    ensures |Preorder(t)| == |Inorder(t)| == |Postorder(t)| == Size(t)
  {
    TraversalLengths(t);
    if t.Node? {
      var Node(l, x, r) := t;
      TraversalsAgree(l);
      TraversalsAgree(r);
      var pl, il, ql := Preorder(l), Inorder(l), Postorder(l);
      var pr, ir, qr := Preorder(r), Inorder(r), Postorder(r);
      assert multiset(Preorder(t)) == multiset{x} + multiset(pl) + multiset(pr);
      assert multiset(Inorder(t)) == multiset(il) + multiset{x} + multiset(ir);
      assert multiset(Postorder(t)) == multiset(ql) + multiset(qr) + multiset{x};
    }
  }

  lemma {:induction false} TraversalLengths(t: Tree)
    ensures |Preorder(t)| == |Inorder(t)| == |Postorder(t)| == Size(t)
  {
    if t.Node? {
      TraversalLengths(t.left);
      TraversalLengths(t.right);
    }
  }

  // ---------------------------------------------------------------------------
  // Lemmas: insertion keeps the inorder sequence sorted
  // ---------------------------------------------------------------------------

  /** Splicing `e` into the left subtree's inorder sequence splices it into the whole tree's. */
  lemma SpliceLeft(l: Tree, l': Tree, x: int, r: Tree, e: int)
    requires x > e && Inorder(l') == InsertSorted(Inorder(l), e)
    ensures Inorder(Node(l', x, r)) == InsertSorted(Inorder(Node(l, x, r)), e)
  {
    var sl, sr := Inorder(l), Inorder(r);
    var tail := [x] + sr;
    InsertSortedBeforeSuffix(sl, tail, e);
    calc {
      Inorder(Node(l', x, r));
      InsertSorted(sl, e) + [x] + sr;
      { assert InsertSorted(sl, e) + [x] + sr == InsertSorted(sl, e) + tail; }
      InsertSorted(sl, e) + tail;
      InsertSorted(sl + tail, e);
      { assert sl + tail == sl + [x] + sr; }
      InsertSorted(Inorder(Node(l, x, r)), e);
    }
  }

  /** Splicing `e` into the right subtree's inorder sequence splices it into the whole tree's, when `e` is not below the node. */
  lemma SpliceRight(l: Tree, x: int, r: Tree, r': Tree, e: int)
    requires x <= e && (forall y :: y in Inorder(l) ==> y <= x)
    requires Inorder(r') == InsertSorted(Inorder(r), e)
    ensures Inorder(Node(l, x, r')) == InsertSorted(Inorder(Node(l, x, r)), e)
  {
    var sl, sr := Inorder(l), Inorder(r);
    forall y | y in sl + [x] ensures y <= e {
      if y in sl { } else { assert y == x; }
    }
    InsertSortedPastPrefix(sl + [x], sr, e);
  }

  /** On a sorted tree, insertion splices `e` into the inorder sequence, whether or not it is balanced. */
  lemma {:induction false} RecursiveAddInorder(t: Tree, e: int, shouldBalance: bool)
    requires t.Node? && Ordered(t)
    ensures Inorder(RecursiveAdd(t, e, shouldBalance)) == InsertSorted(Inorder(t), e)
  {
    var Node(l, x, rt) := t;
    SortedSplit(Inorder(l), x, Inorder(rt));
    if x > e {
      if l.Node? {
        RecursiveAddInorder(l, e, shouldBalance);
        SpliceLeft(l, RecursiveAdd(l, e, shouldBalance), x, rt, e);
      } else {
        SpliceLeft(l, Node(Leaf, e, Leaf), x, rt, e);
      }
    } else {
      if rt.Node? {
        RecursiveAddInorder(rt, e, shouldBalance);
        SpliceRight(l, x, rt, RecursiveAdd(rt, e, shouldBalance), e);
      } else {
        SpliceRight(l, x, rt, Node(Leaf, e, Leaf), e);
      }
    }
  }

  lemma AddInorder(t: Tree, e: int, shouldBalance: bool)
    requires Ordered(t)
    ensures Inorder(Add(t, e, shouldBalance)) == InsertSorted(Inorder(t), e)
    ensures Ordered(Add(t, e, shouldBalance))
  {
    if t.Node? {
      RecursiveAddInorder(t, e, shouldBalance);
    }
    InsertSortedKeepsSorted(Inorder(t), e);
  }

  /** add grows the element multiset by exactly one copy of `e`. */
  lemma AddElements(t: Tree, e: int, shouldBalance: bool)
    requires Ordered(t)
    ensures multiset(Inorder(Add(t, e, shouldBalance))) == multiset(Inorder(t)) + multiset{e}
  {
    AddInorder(t, e, shouldBalance);
    InsertSortedElements(Inorder(t), e);
  }

  /** add grows the tree by exactly one node and makes `contains(e)` true. */
  lemma AddThenContains(t: Tree, e: int, shouldBalance: bool)
    requires Ordered(t)
    ensures Size(Add(t, e, shouldBalance)) == Size(t) + 1
    ensures Contains(Add(t, e, shouldBalance), e)
  {
    var r := Add(t, e, shouldBalance);
    TraversalsAgree(t);
    TraversalsAgree(r);
    AddInorder(t, e, shouldBalance);
    AddElements(t, e, shouldBalance);
    ContainsIffInInorder(r, e);
    assert e in multiset(Inorder(r));
  }

  /**
   * Adding an element that is already present is not a no-op: the tree gets
   * a second node holding it and its size grows by one.
   */
  lemma AddAdmitsDuplicate(t: Tree, e: int, shouldBalance: bool)
    requires Ordered(t) && Contains(t, e)
    ensures Size(Add(t, e, shouldBalance)) == Size(t) + 1
    ensures multiset(Inorder(Add(t, e, shouldBalance)))[e] >= 2
  {
    AddThenContains(t, e, shouldBalance);
    AddElements(t, e, shouldBalance);
    assert e in multiset(Inorder(t));
  }

  /** Re-adding an ascending sequence into an empty tree reproduces it as the inorder sequence (copy and assignment). */
  lemma {:induction false} AddAllSortedInorder(xs: seq<int>, shouldBalance: bool)
    requires Sorted(xs)
    ensures Inorder(AddAll(Leaf, xs, shouldBalance)) == xs
    decreases |xs|
  {
    if xs != [] {
      var n := |xs| - 1;
      var prefix := xs[..n];
      assert Sorted(prefix);
      AddAllSortedInorder(prefix, shouldBalance);
      var t := AddAll(Leaf, prefix, shouldBalance);
      AddInorder(t, xs[n], shouldBalance);
      forall y | y in prefix ensures y <= xs[n] { }
      InsertSortedPastPrefix(prefix, [], xs[n]);
      assert prefix + [] == prefix;
      assert xs == prefix + [xs[n]];
    }
  }

  /** Without balancing, adding elements in ascending order builds a right chain whose height is one less than its size. */
  lemma {:induction false} AddToRightChain(t: Tree, e: int)
    requires RightChain(t)
    requires forall y :: y in Inorder(t) ==> y <= e
    ensures RightChain(Add(t, e, false)) && Height(Add(t, e, false)) == Height(t) + 1
  {
    if t.Node? {
      var Node(l, x, r) := t;
      assert x in Inorder(t);
      if r.Node? {
        forall y | y in Inorder(r) ensures y <= e {
          assert y in Inorder(t);
        }
        AddToRightChain(r, e);
        assert RecursiveAdd(t, e, false) == Node(l, x, Add(r, e, false));
      }
    }
  }

  lemma {:induction false} AscendingAddsDegenerate(xs: seq<int>)
    requires Sorted(xs)
    ensures RightChain(AddAll(Leaf, xs, false))
    ensures Height(AddAll(Leaf, xs, false)) == |xs| - 1
    decreases |xs|
  {
    if xs != [] {
      var n := |xs| - 1;
      var prefix := xs[..n];
      assert Sorted(prefix);
      AscendingAddsDegenerate(prefix);
      var t := AddAll(Leaf, prefix, false);
      AddAllSortedInorder(prefix, false);
      forall y | y in Inorder(t) ensures y <= xs[n] {
        var k :| 0 <= k < n && prefix[k] == y;
      }
      AddToRightChain(t, xs[n]);
    }
  }

  // ---------------------------------------------------------------------------
  // Lemmas: balancing
  // ---------------------------------------------------------------------------

  /** Single right rotation repairs a left-left imbalance of two without changing the height of the left child. */
  lemma RotateRightRepairs(l: Tree, x: int, r: Tree)
    requires l.Node? && Balanced(l) && Balanced(r)
    requires Height(l.left) == Height(l.right) + 1
    requires Height(l) == Height(r) + 2
    ensures Balanced(RotateRight(Node(l, x, r)))
    ensures Height(RotateRight(Node(l, x, r))) == Height(l)
  {
    var Node(a, y, b) := l;
    assert Height(Node(b, x, r)) == Height(a);
  }

  /** Left-right rotation repairs a left-right imbalance of two without changing the height of the left child. */
  lemma RotateLeftRightRepairs(l: Tree, x: int, r: Tree)
    requires l.Node? && l.right.Node? && Balanced(l) && Balanced(r)
    requires Height(l.right) == Height(l.left) + 1
    requires Height(l) == Height(r) + 2
    ensures Balanced(RotateLeftRight(Node(l, x, r)))
    ensures Height(RotateLeftRight(Node(l, x, r))) == Height(l)
  {
    var Node(a, y, Node(b1, z, b2)) := l;
    var h := Height(a);
    assert Height(Node(a, y, b1)) == h + 1;
    assert Height(Node(b2, x, r)) == h + 1;
    assert RotateLeftRight(Node(l, x, r)) == Node(Node(a, y, b1), z, Node(b2, x, r));
  }

  /** Single left rotation repairs a right-right imbalance of two without changing the height of the right child. */
  lemma RotateLeftRepairs(l: Tree, x: int, r: Tree)
    requires r.Node? && Balanced(l) && Balanced(r)
    requires Height(r.right) == Height(r.left) + 1
    requires Height(r) == Height(l) + 2
    ensures Balanced(RotateLeft(Node(l, x, r)))
    ensures Height(RotateLeft(Node(l, x, r))) == Height(r)
  {
    var Node(b, y, c) := r;
    assert Height(Node(l, x, b)) == Height(c);
  }

  /** Right-left rotation repairs a right-left imbalance of two without changing the height of the right child. */
  lemma RotateRightLeftRepairs(l: Tree, x: int, r: Tree)
    requires r.Node? && r.left.Node? && Balanced(l) && Balanced(r)
    requires Height(r.left) == Height(r.right) + 1
    requires Height(r) == Height(l) + 2
    ensures Balanced(RotateRightLeft(Node(l, x, r)))
    ensures Height(RotateRightLeft(Node(l, x, r))) == Height(r)
  {
    var Node(Node(b1, z, b2), y, c) := r;
    var h := Height(c);
    assert Height(Node(l, x, b1)) == h + 1;
    assert Height(Node(b2, y, c)) == h + 1;
    assert RotateRightLeft(Node(l, x, r)) == Node(Node(l, x, b1), z, Node(b2, y, c));
  }

  /** Rebalancing after the left child `l` was replaced by `l'`, at most one taller. */
  lemma BalanceAfterLeftGrowth(l: Tree, l': Tree, x: int, rt: Tree)
    requires l'.Node? && Balanced(Node(l, x, rt)) && Balanced(l')
    requires Height(l) <= Height(l') <= Height(l) + 1
    requires Height(l') == Height(l) + 1 ==> Height(l'.left) != Height(l'.right)
    ensures Balanced(Balance(Node(l', x, rt)))
    ensures Height(Node(l, x, rt)) <= Height(Balance(Node(l', x, rt))) <= Height(Node(l, x, rt)) + 1
    ensures Height(Balance(Node(l', x, rt))) == Height(Node(l, x, rt)) + 1 ==>
              Height(Balance(Node(l', x, rt)).left) != Height(Balance(Node(l', x, rt)).right)
  {
    if Height(l') - Height(rt) == 2 {
      if Height(l'.left) > Height(l'.right) {
        RotateRightRepairs(l', x, rt);
      } else {
        RotateLeftRightRepairs(l', x, rt);
      }
    }
  }

  /** Rebalancing after the right child `rt` was replaced by `r'`, at most one taller. */
  lemma BalanceAfterRightGrowth(l: Tree, x: int, rt: Tree, r': Tree)
    requires r'.Node? && Balanced(Node(l, x, rt)) && Balanced(r')
    requires Height(rt) <= Height(r') <= Height(rt) + 1
    requires Height(r') == Height(rt) + 1 ==> Height(r'.left) != Height(r'.right)
    ensures Balanced(Balance(Node(l, x, r')))
    ensures Height(Node(l, x, rt)) <= Height(Balance(Node(l, x, r'))) <= Height(Node(l, x, rt)) + 1
    ensures Height(Balance(Node(l, x, r'))) == Height(Node(l, x, rt)) + 1 ==>
              Height(Balance(Node(l, x, r')).left) != Height(Balance(Node(l, x, r')).right)
  {
    if Height(r') - Height(l) == 2 {
      if Height(r'.left) < Height(r'.right) {
        RotateLeftRepairs(l, x, r');
      } else {
        RotateRightLeftRepairs(l, x, r');
      }
    }
  }

  /**
   * The AVL invariant survives recursiveAdd with balancing on. Along the way:
   * the height grows by at most one, and when it does grow the new root is
   * not evenly balanced, which is why the strict tests `> 0` and `< 0` on the
   * child's factor pick the right rotation one level up.
   */
  lemma {:induction false} RecursiveAddKeepsBalance(t: Tree, e: int)
    requires t.Node? && Balanced(t)
    ensures Balanced(RecursiveAdd(t, e, true))
    ensures Height(t) <= Height(RecursiveAdd(t, e, true)) <= Height(t) + 1
    ensures Height(RecursiveAdd(t, e, true)) == Height(t) + 1 ==>
              Height(RecursiveAdd(t, e, true).left) != Height(RecursiveAdd(t, e, true).right)
  {
    var Node(l, x, rt) := t;
    if x > e {
      if l.Node? {
        RecursiveAddKeepsBalance(l, e);
        BalanceAfterLeftGrowth(l, RecursiveAdd(l, e, true), x, rt);
      }
    } else {
      if rt.Node? {
        RecursiveAddKeepsBalance(rt, e);
        BalanceAfterRightGrowth(l, x, rt, RecursiveAdd(rt, e, true));
      }
    }
  }

  lemma AddKeepsBalance(t: Tree, e: int)
    requires Balanced(t)
    ensures Balanced(Add(t, e, true))
  {
    if t.Node? {
      RecursiveAddKeepsBalance(t, e);
    }
  }

  /** No tree is taller than its node count allows: a height of h needs at least h + 1 nodes. */
  lemma {:induction false} HeightBelowSize(t: Tree)
    ensures Height(t) < Size(t)
  {
    if t.Node? {
      HeightBelowSize(t.left);
      HeightBelowSize(t.right);
    }
  }

  /** Fibonacci numbers: Fib(0) = 0, Fib(1) = Fib(2) = 1. */
  function Fib(n: nat): nat
  {
    if n < 2 then n else Fib(n - 1) + Fib(n - 2)
  }

  lemma {:induction false} FibMonotone(m: nat, n: nat)
    requires m <= n
    ensures Fib(m) <= Fib(n)
    decreases n - m
  {
    if m < n {
      FibMonotone(m, n - 1);
      assert Fib(n - 1) <= Fib(n);
    }
  }

  /** The Fibonacci step of the height bound: a node whose taller child has height h - 1 and whose other child is at most two lower. */
  lemma FibAdd(h: nat, a: nat, b: nat, hs: int)
    requires -1 <= hs && h <= hs + 2
    requires Fib(h + 2) <= a && Fib(hs + 3) <= b
    ensures Fib(h + 3) <= a + b
  {
    FibMonotone(h + 1, hs + 3);
  }

  /**
   * The AVL height bound: a balanced tree of height h holds at least
   * Fib(h + 3) - 1 nodes, so its height is at most about 1.44 log2(size + 2).
   */
  lemma {:induction false} BalancedFibBound(t: Tree)
    requires Balanced(t)
    ensures Fib(Height(t) + 3) <= Size(t) + 1
  {
    if t.Node? {
      var Node(l, _, r) := t;
      BalancedFibBound(l);
      BalancedFibBound(r);
      if Height(l) >= Height(r) {
        FibAdd(Height(t), Size(l) + 1, Size(r) + 1, Height(r));
      } else {
        FibAdd(Height(t), Size(r) + 1, Size(l) + 1, Height(l));
      }
    }
  }

  /** A balanced tree of at most 1000 nodes has height at most 13, since Fib(17) = 1597. */
  lemma BalancedThousandHeight(t: Tree)
    requires Balanced(t)
    ensures Size(t) <= 1000 ==> Height(t) <= 13
  {
    BalancedFibBound(t);
    if Height(t) > 13 {
      assert Fib(10) == 55 && Fib(11) == 89 && Fib(12) == 144;
      assert Fib(13) == 233 && Fib(14) == 377 && Fib(15) == 610;
      assert Fib(16) == 987 && Fib(17) == 1597;
      FibMonotone(17, Height(t) + 3);
    }
  }

  /** add always stores exactly one node, whatever the tree's shape. */
  lemma {:induction false} AddAllShape(xs: seq<int>, shouldBalance: bool)
    ensures Ordered(AddAll(Leaf, xs, shouldBalance))
    ensures Size(AddAll(Leaf, xs, shouldBalance)) == |xs|
    ensures shouldBalance ==> Balanced(AddAll(Leaf, xs, shouldBalance))
    decreases |xs|
  {
    if xs != [] {
      var n := |xs| - 1;
      AddAllShape(xs[..n], shouldBalance);
      var t := AddAll(Leaf, xs[..n], shouldBalance);
      AddInorder(t, xs[n], shouldBalance);
      AddThenContains(t, xs[n], shouldBalance);
      if shouldBalance {
        AddKeepsBalance(t, xs[n]);
      }
    }
  }

  /**
   * Adding 1000 elements, in any order, with balancing gives height at most
   * 13; adding 1000 ascending elements without balancing gives height 999.
   */
  lemma ThousandAdds(xs: seq<int>)
    requires |xs| == 1000
    ensures Height(AddAll(Leaf, xs, true)) <= 13
    ensures Sorted(xs) ==> Height(AddAll(Leaf, xs, false)) == 999
  {
    AddAllShape(xs, true);
    BalancedThousandHeight(AddAll(Leaf, xs, true));
    if Sorted(xs) {
      AscendingAddsDegenerate(xs);
    }
  }

  /** Adding 1, 2, 3 with balancing leaves 2 at the root with children 1 and 3: one left rotation at the root. */
  lemma AscendingThreeRotatesOnce()
    ensures AddAll(Leaf, [1, 2, 3], true) == Node(Node(Leaf, 1, Leaf), 2, Node(Leaf, 3, Leaf))
  {
    assert [1, 2, 3][..2] == [1, 2];
    assert [1, 2][..1] == [1];
    assert [1][..0] == [];
  }
}
