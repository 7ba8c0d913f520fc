/**
 * The AVL tree set object: a flag saying whether `add` rebalances, and the
 * root slot of the tree. Every operation that the object offers delegates to
 * the recursive node-level code in module AVLTree; the object stores the new
 * root after each insertion.
 */
module AVLSet {
  import AVLTree

  class AVLSet {
    var shouldBalance: bool
    var root: AVLTree.Tree

    /** The object invariant: a search tree, balanced whenever balancing is on. */
    ghost predicate Valid()
      reads this
    {
      AVLTree.Ordered(root) && (shouldBalance ==> AVLTree.Balanced(root))
    }

    /** AVLSet(shouldBalance = true): an empty set, balancing by default. */
    constructor (shouldBalance: bool := true)
      ensures Valid()
      ensures this.shouldBalance == shouldBalance && root == AVLTree.Leaf
    {
      this.shouldBalance := shouldBalance;
      root := AVLTree.Leaf;
    }

    /**
     * The copy constructor, and the move constructor that does the same: take
     * the source's flag and add the source's elements one at a time in inorder.
     * The new tree holds the same element sequence, although its shape is
     * rebuilt by the insertions.
     */
    constructor Copy(s: AVLSet)
      requires s.Valid()
      ensures Valid()
      ensures shouldBalance == s.shouldBalance
      ensures root == AVLTree.AddAll(AVLTree.Leaf, AVLTree.Inorder(s.root), s.shouldBalance)
      ensures AVLTree.Inorder(root) == AVLTree.Inorder(s.root)
    {
      shouldBalance := s.shouldBalance;
      root := AVLTree.Leaf;
      new;
      var xs := AVLTree.Inorder(s.root);
      AddEach(xs);
      AVLTree.AddAllSortedInorder(xs, shouldBalance);
    }

    /**
     * Copy and move assignment: take the source's flag, empty this tree, then
     * add the source's elements in inorder. When the source is this very
     * object its tree has just been emptied, so self-assignment leaves an
     * empty set.
     */
    method Assign(s: AVLSet)
      requires s.Valid()
      modifies this
      ensures Valid()
      ensures shouldBalance == old(s.shouldBalance)
      ensures s == this ==> root == AVLTree.Leaf
      ensures s != this ==> AVLTree.Inorder(root) == AVLTree.Inorder(s.root)
      ensures s != this ==> root == AVLTree.AddAll(AVLTree.Leaf, AVLTree.Inorder(s.root), s.shouldBalance)
    {
      shouldBalance := s.shouldBalance;
      root := AVLTree.Leaf;
      var xs := AVLTree.Inorder(s.root);
      AddEach(xs);
      AVLTree.AddAllSortedInorder(xs, shouldBalance);
    }

    /** Calls add once per element of `xs`, in order (the inorder visit callback of copying). */
    method AddEach(xs: seq<int>)
      requires Valid()
      modifies this
      ensures Valid() && shouldBalance == old(shouldBalance)
      ensures root == AVLTree.AddAll(old(root), xs, shouldBalance)
    {
      var i := 0;
      while i < |xs|
        invariant 0 <= i <= |xs|
        invariant Valid() && shouldBalance == old(shouldBalance)
        invariant root == AVLTree.AddAll(old(root), xs[..i], shouldBalance)
      {
        AVLTree.AddAllStep(old(root), xs, i, shouldBalance);
        Add(xs[i]);
        i := i + 1;
      }
      assert xs[..i] == xs;
    }

    /**
     * add: inserts one more copy of `e`, keeping the search-tree invariant and,
     * when balancing is on, the AVL invariant; afterwards `contains(e)` holds.
     */
    method Add(e: int)
      requires Valid()
      modifies this
      ensures Valid() && shouldBalance == old(shouldBalance)
      ensures root == AVLTree.Add(old(root), e, shouldBalance)
      ensures multiset(AVLTree.Inorder(root)) == multiset(AVLTree.Inorder(old(root))) + multiset{e}
      ensures Contains(e)
    {
      AVLTree.AddInorder(root, e, shouldBalance);
      AVLTree.AddElements(root, e, shouldBalance);
      AVLTree.AddThenContains(root, e, shouldBalance);
      if shouldBalance {
        AVLTree.AddKeepsBalance(root, e);
      }
      root := AVLTree.Add(root, e, shouldBalance);
    }

    /** contains: true exactly when `e` is one of the set's elements. */
    function Contains(e: int): (b: bool)
      requires Valid()
      reads this
      ensures b <==> e in AVLTree.Inorder(root)
    {
      AVLTree.ContainsIffInInorder(root, e);
      AVLTree.Contains(root, e)
    }

    /** size: the number of elements, duplicates included. */
    function Size(): (n: nat)
      reads this
      ensures n == |AVLTree.Inorder(root)|
      ensures n == 0 <==> root == AVLTree.Leaf
    {
      AVLTree.TraversalLengths(root);
      AVLTree.Size(root)
    }

    /**
     * height: -1 for an empty set and never more than size - 1; with balancing
     * on, a set of height h holds at least Fib(h + 3) - 1 elements.
     */
    function Height(): (h: int)
      requires Valid()
      reads this
      ensures -1 <= h < AVLTree.Size(root)
      ensures h == -1 <==> root == AVLTree.Leaf
      ensures shouldBalance ==> AVLTree.Fib(h + 3) <= AVLTree.Size(root) + 1
      ensures shouldBalance && AVLTree.Size(root) <= 1000 ==> h <= 13
    {
      AVLTree.HeightBelowSize(root);
      if shouldBalance then
        AVLTree.BalancedFibBound(root);
        AVLTree.BalancedThousandHeight(root);
        AVLTree.Height(root)
      else
        AVLTree.Height(root)
    }

    /** preorder: the sequence of visited elements; every element once. */
    function Preorder(): (s: seq<int>)
      reads this
      ensures multiset(s) == multiset(AVLTree.Inorder(root))
      ensures |s| == AVLTree.Size(root)
    {
      AVLTree.TraversalsAgree(root);
      AVLTree.Preorder(root)
    }

    /** inorder: the sequence of visited elements; every element once, in non-decreasing order. */
    function Inorder(): (s: seq<int>)
      requires Valid()
      reads this
      ensures AVLTree.Sorted(s)
      ensures |s| == AVLTree.Size(root)
      ensures forall e :: e in s <==> Contains(e)
    {
      AVLTree.TraversalLengths(root);
      AVLTree.Inorder(root)
    }

    /** postorder: the sequence of visited elements; every element once. */
    function Postorder(): (s: seq<int>)
      reads this
      ensures multiset(s) == multiset(AVLTree.Inorder(root))
      ensures |s| == AVLTree.Size(root)
    {
      AVLTree.TraversalsAgree(root);
      AVLTree.Postorder(root)
    }
  }
}
