# AVL set, chained hash set and spell-suggestion generator

This project models three in-memory, single-threaded components of a
spell-checking library and proves properties of them in Dafny 4.11.

1. **The AVL tree set** (`AVLSet.hpp`). This is a binary search tree whose
   `add` descends left when the node's element is greater than the new one
   and right otherwise, so ties go right. When the set is built with
   `shouldBalance` on (the default), `add` rebalances, with the four
   rotations, every node on the insertion path from the root down to the
   grandparent of the new leaf. The new leaf's parent is not rebalanced:
   `recursiveAdd` attaches the leaf there and returns without calling
   `balance` on it. A child pointer is either NULL or a node that
   exclusively owns its subtrees, so a tree is a value:
   `datatype Tree = Leaf | Node(left, element, right)` in module `AVLTree`.
   The source rebinds a `TreeNode *&` slot in place. Here every rotation,
   `balance` and `recursiveAdd` returns the new subtree, and the caller stores
   it back. The set object (`AVLSet.AVLSet`) is a class holding the
   `shouldBalance` flag and the root. Its `Add`, copy and assignment update
   those fields.
2. **The separately chained hash set** (`HashSet.hpp`). This is a class
   `HashSet.HashSet` with `size`, `capacity` and an `array` of cells. A cell
   is either a chain of elements or `Uninitialised`: a cell the code never
   wrote, which it must not read. The hash function is a parameter of type
   `T -> nat`. `add` pushes onto the front of a chain. `resize` doubles the
   array without rehashing and leaves its upper half unwritten.
3. **The spell-suggestion generator** (`WordChecker.cpp`). The first four
   techniques are loops that edit a local copy of the word, ask the word set,
   and undo the edit. The fifth edits nothing: it cuts the word into two
   substrings at each split point. Each technique is proved against a reference list of
   the candidates it tries, in the order it tries them. The word set is a
   `set<string>` parameter.

The tree elements are `int`, which stands for any totally ordered element
type. The hash set elements are any type with equality.

### Where the code and its documentation disagree

The model follows the code. Lemmas state each divergence:

- `AVLSet::add` and `HashSet::add` are documented as having no effect on an
  element already present (AVLSet.hpp:61-62, HashSet.hpp:70-71). Neither one
  tests for equality, so a duplicate is stored again and the size grows by
  one. This is shown by `AVLTree.AddAdmitsDuplicate` and
  `HashSet.AddAdmitsDuplicate`. So `size` counts stored copies, not
  distinct elements.
- Textbook AVL insertion tests the child's balance factor with `>= 0` and
  `<= 0`. The code uses strict `> 0` and `< 0` (AVLSet.hpp:434, 440), and
  the model keeps them. `AVLTree.RecursiveAddKeepsBalance` proves that the
  strict tests still keep the AVL invariant after insertion. The reason is
  that a subtree which has just grown taller is never evenly balanced.
- The search-tree invariant is stated as "the inorder sequence is
  non-decreasing", not as "left < node <= right". A rotation on equal
  elements can move an equal element to the left of its parent. For example,
  adding 1, 1, 1 with balancing on does this.
- The doc comments of `elementsAtIndex` and `isElementAtIndex` promise 0 for
  an index out of range (HashSet.hpp:90-99). The code reads `array[index]`
  unchecked, so the model requires `index < capacity`.
- After `resize` an element can hash to a cell in the unwritten upper half
  (`HashSet.ResizedSlotUnwritten`, `HashSet.ResizeMisplacesExample`). Copies
  hash everything to cell 0 and so miss elements that the original keeps
  elsewhere (`HashSet.CopyMissesExample`).

## Model

| member | source | states |
|---|---|---|
| `AVLTree.Height` | AVLSet.hpp:322-334 | the height is at least -1, and -1 exactly for an empty slot |
| `AVLTree.Size` | AVLSet.hpp:306-313 | the node count is 0 exactly for an empty slot |
| `AVLTree.Contains` | AVLSet.hpp:281-298 | `containsRecursive` reports true only for an element of the inorder sequence, so it is false on NULL |
| `AVLTree.ContainsIffInInorder` | AVLSet.hpp:281-298 | on a tree whose inorder sequence is sorted, `contains(e)` holds iff `e` occurs in the inorder sequence (both directions) |
| `AVLTree.TraversalsAgree` | AVLSet.hpp:336-389 | preorder, inorder and postorder visit the same multiset of elements, each traversal visiting exactly `size()` elements, so every node is visited once |
| `AVLTree.TraversalLengths` | AVLSet.hpp:306-389 | each traversal has length `size()` |
| `AVLTree.RotateLeft` | AVLSet.hpp:391-399 | given a right child, `rotateLeft` leaves the inorder sequence unchanged |
| `AVLTree.RotateRight` | AVLSet.hpp:401-409 | given a left child, `rotateRight` leaves the inorder sequence unchanged |
| `AVLTree.RotateRightLeft` | AVLSet.hpp:411-418 | given a right child with a left child, the double rotation leaves the inorder sequence unchanged |
| `AVLTree.RotateLeftRight` | AVLSet.hpp:420-427 | given a left child with a right child, the double rotation leaves the inorder sequence unchanged |
| `AVLTree.BalanceFactor` | AVLSet.hpp:447-459 | all three return branches equal height(left) - height(right), a missing child counting as -1 |
| `AVLTree.Balance` | AVLSet.hpp:429-445 | `balance` keeps the inorder sequence and leaves a node whose children differ in height by at most one unchanged; the children every chosen rotation dereferences exist |
| `AVLTree.RecursiveAdd` | AVLSet.hpp:250-272 | the slot `recursiveAdd` works on stays non-empty |
| `AVLTree.Add` | AVLSet.hpp:239-248 | after `add` the root is non-empty |
| `AVLTree.RecursiveAddInorder` | AVLSet.hpp:250-272 | on a sorted tree, `recursiveAdd` splices `e` into the inorder sequence just before the first element greater than `e` (ties after), with or without balancing |
| `AVLTree.AddInorder` | AVLSet.hpp:239-272 | `add` splices `e` into the inorder sequence and keeps it non-decreasing |
| `AVLTree.AddElements` | AVLSet.hpp:239-272 | `add` grows the element multiset by exactly one copy of `e` |
| `AVLTree.AddThenContains` | AVLSet.hpp:239-298 | after `add(e)`, `size()` has risen by one and `contains(e)` holds |
| `AVLTree.AddAdmitsDuplicate` | AVLSet.hpp:250-272 | adding an element already present still adds a node: the size grows by one and the element occurs at least twice, contrary to the doc comment at lines 61-62 |
| `AVLTree.AddAllSortedInorder` | AVLSet.hpp:180-229 | adding a non-decreasing sequence into an empty tree, as copy and assignment do, gives that sequence back as the inorder sequence, with balancing on or off |
| `AVLTree.AddToRightChain` | AVLSet.hpp:262-271 | without balancing, adding an element not below any stored one to a right chain extends the chain and raises its height by one |
| `AVLTree.AscendingAddsDegenerate` | AVLSet.hpp:8-12 | without balancing, adding n ascending elements into an empty tree gives a right chain of height n - 1 |
| `AVLTree.RotateRightRepairs` | AVLSet.hpp:401-409 | a right rotation repairs a left-left imbalance of two, giving a balanced tree with the left child's height |
| `AVLTree.RotateLeftRightRepairs` | AVLSet.hpp:420-427 | a left-right rotation repairs a left-right imbalance of two, giving a balanced tree with the left child's height |
| `AVLTree.RotateLeftRepairs` | AVLSet.hpp:391-399 | a left rotation repairs a right-right imbalance of two, giving a balanced tree with the right child's height |
| `AVLTree.RotateRightLeftRepairs` | AVLSet.hpp:411-418 | a right-left rotation repairs a right-left imbalance of two, giving a balanced tree with the right child's height |
| `AVLTree.BalanceAfterLeftGrowth` | AVLSet.hpp:429-438 | after the left subtree grew by at most one, `balance` (with the strict `> 0` test) restores the AVL invariant and the height grows by at most one |
| `AVLTree.BalanceAfterRightGrowth` | AVLSet.hpp:439-444 | after the right subtree grew by at most one, `balance` (with the strict `< 0` test) restores the AVL invariant and the height grows by at most one |
| `AVLTree.RecursiveAddKeepsBalance` | AVLSet.hpp:250-272 | with balancing on, `recursiveAdd` keeps every node's balance factor within -1..1, raises the height by at most one, and a subtree that grew is not evenly balanced |
| `AVLTree.AddKeepsBalance` | AVLSet.hpp:6-8 | with balancing on, every node has a balance factor of absolute value at most 1 after every `add` |
| `AVLTree.HeightBelowSize` | AVLSet.hpp:306-334 | `height()` is always less than `size()` |
| `AVLTree.BalancedFibBound` | AVLSet.hpp:6-8 | the AVL height bound: a balanced tree of height h holds at least Fib(h + 3) - 1 nodes, so h is at most about 1.44 log2(size + 2) |
| `AVLTree.BalancedThousandHeight` | AVLSet.hpp:6-8 | a balanced tree of at most 1000 nodes has height at most 13 |
| `AVLTree.AddAllShape` | AVLSet.hpp:239-272 | any sequence of adds into an empty tree gives a sorted tree with one node per add, balanced when balancing is on |
| `AVLTree.ThousandAdds` | AVLSet.hpp:6-12 | 1000 adds in any order with balancing give height at most 13; 1000 ascending adds without balancing give height 999 |
| `AVLTree.AscendingThreeRotatesOnce` | AVLSet.hpp:391-399 | adding 1, 2, 3 with balancing gives root 2 with leaf children 1 and 3 (one left rotation) |
| `AVLSet.AVLSet.constructor` | AVLSet.hpp:165-170 | a new set is empty and keeps the given `shouldBalance` flag, which defaults to true |
| `AVLSet.AVLSet.Copy` | AVLSet.hpp:180-197 | the copy and move constructors take the source's flag and rebuild by adding the source's inorder sequence, so the inorder sequences are equal |
| `AVLSet.AVLSet.Assign` | AVLSet.hpp:200-229 | assignment takes the source's flag and rebuilds from its inorder sequence; assigning a set to itself empties it |
| `AVLSet.AVLSet.AddEach` | AVLSet.hpp:186 | the inorder callback adds each element in turn, keeping the set's invariant |
| `AVLSet.AVLSet.Add` | AVLSet.hpp:239-248 | `add` stores the new root, adds one copy of `e`, makes `contains(e)` true and keeps order and (when on) balance |
| `AVLSet.AVLSet.Contains` | AVLSet.hpp:275-279 | `contains(e)` holds iff `e` is one of the stored elements |
| `AVLSet.AVLSet.Size` | AVLSet.hpp:300-304 | `size()` is the number of stored elements, 0 exactly for the empty set |
| `AVLSet.AVLSet.Height` | AVLSet.hpp:315-319 | `height()` is -1 exactly for the empty set and below `size()`; with balancing on, Fib(height + 3) <= size + 1, so at most 1000 elements give height at most 13 |
| `AVLSet.AVLSet.Preorder` | AVLSet.hpp:336-351 | `preorder` visits every stored element exactly once |
| `AVLSet.AVLSet.Inorder` | AVLSet.hpp:354-370 | `inorder` visits `size()` elements in non-decreasing order, exactly the elements `contains` reports |
| `AVLSet.AVLSet.Postorder` | AVLSet.hpp:372-389 | `postorder` visits every stored element exactly once |
| `HashSet.Slot` | HashSet.hpp:276 | the cell index `hash(e) % capacity` lies inside the array |
| `HashSet.NeedsResize` | HashSet.hpp:272-274 | the integer test `5 * size > 4 * capacity` is the resize condition `size / capacity > 0.8` |
| `HashSet.Resized` | HashSet.hpp:333-352 | resize doubles the length, keeps each old cell at its index and leaves the upper half unwritten |
| `HashSet.HashSet.constructor` | HashSet.hpp:151-162 | a new set has capacity 10, size 0 and every cell an empty chain |
| `HashSet.HashSet.Copy` | HashSet.hpp:175-208 | the copy and move constructors duplicate size, capacity and every chain in order, but hash every element to 0 |
| `HashSet.HashSet.Assign` | HashSet.hpp:211-259 | assignment takes size, capacity and every chain of the source, and keeps its own hash function |
| `HashSet.HashSet.Resize` | HashSet.hpp:332-352 | `resize` doubles `capacity`, copies each old chain to the same index without rehashing, and keeps the element count |
| `HashSet.HashSet.Add` | HashSet.hpp:269-282 | `add` resizes first exactly when the load test fires, then prepends `e` to its hash cell's chain and increments `size` |
| `HashSet.HashSet.Contains` | HashSet.hpp:285-296 | `contains(e)` is true iff `e` is on the chain at `hash(e) % capacity` |
| `HashSet.HashSet.Size` | HashSet.hpp:299-303 | `size()` equals the total length of the chains |
| `HashSet.HashSet.ElementsAtIndex` | HashSet.hpp:306-316 | `elementsAtIndex(i)` is the length of chain i, for an index inside the array |
| `HashSet.HashSet.IsElementAtIndex` | HashSet.hpp:319-329 | `isElementAtIndex(e, i)` is membership of `e` in chain i, for an index inside the array |
| `HashSet.ResizedTotalLength` | HashSet.hpp:333-352 | resize neither loses nor adds elements |
| `HashSet.ResizedMembers` | HashSet.hpp:333-352 | after resize, an element is stored iff it was stored before |
| `HashSet.AddCountsOne` | HashSet.hpp:269-282 | `add` stores exactly one more element, with or without a resize |
| `HashSet.AddThenFound` | HashSet.hpp:269-296 | after `add(e)`, the cell `contains(e)` reads is initialised and holds `e` |
| `HashSet.AddMembers` | HashSet.hpp:269-282 | after `add(e)`, an element is stored iff it was stored before or is `e` |
| `HashSet.AddKeepsPlacement` | HashSet.hpp:276-281 | an `add` without a resize keeps every element in the cell its hash selects |
| `HashSet.AddAdmitsDuplicate` | HashSet.hpp:276-281 | adding an element already on its chain stores a second copy and counts it, contrary to the doc comment at lines 70-71 |
| `HashSet.DefaultThreshold` | HashSet.hpp:272-274 | at capacity 10 the load test fires iff size >= 9, so the first nine adds into a new set do not resize and the tenth does |
| `HashSet.PlacedLookupExact` | HashSet.hpp:285-296 | when every element sits in its hash cell, the single-chain walk of `contains` finds exactly the stored elements |
| `HashSet.ResizedSlotUnwritten` | HashSet.hpp:333-352 | after resize, an element whose new slot differs from its old index must be looked up in an unwritten cell, so placement is lost |
| `HashSet.ResizeMisplacesExample` | HashSet.hpp:333-352 | with the identity hash, 15 in cell 5 of 10 is looked up in cell 15 of 20 after resize, which is unwritten |
| `HashSet.CopyMissesExample` | HashSet.hpp:141-148 | a copy's constant-0 hash looks in cell 0 and misses an element the original keeps in cell 3 |
| `WordChecker.Swapped` | WordChecker.cpp:42 | `std::swap` of positions i and i+1 exchanges those two characters and changes nothing else |
| `WordChecker.Inserted` | WordChecker.cpp:62 | `insert(i, 1, c)` puts `c` at position i and shifts the rest right by one |
| `WordChecker.Erased` | WordChecker.cpp:71 | `erase(i, 1)` removes position i and shifts the rest left by one |
| `WordChecker.Replaced` | WordChecker.cpp:102-117 | replacing position i by `c` changes only that position |
| `WordChecker.FindSuggestions` | WordChecker.cpp:24-35 | the result is the concatenation of what techniques 1 to 5 keep, in that order; the word must be non-empty |
| `WordChecker.Technique1` | WordChecker.cpp:37-53 | appends, for i = 0 .. n-2 in order (n the word length), `w` with positions i and i+1 swapped whenever that is a word; needs a non-empty word |
| `WordChecker.Technique2` | WordChecker.cpp:55-74 | appends, for each gap 0 .. n (n the word length) and each letter 'A'..'Z', `w` with the letter inserted whenever that is a word |
| `WordChecker.InsertEachLetter` | WordChecker.cpp:59-72 | the inner loop appends, for 'A'..'Z' in order, the word with that letter inserted at gap i whenever it is a word, and restores the word |
| `WordChecker.Technique3` | WordChecker.cpp:76-95 | appends, for i = 0 .. n-1 in order (n the word length), `w` with character i deleted whenever that is a word |
| `WordChecker.Technique4` | WordChecker.cpp:97-123 | appends, for each position and each letter 'A'..'Z', `w` with that position replaced by the letter whenever that is a word |
| `WordChecker.Technique5` | WordChecker.cpp:125-138 | appends, for split points 1 .. n-1 in order (n the word length), `left + " " + right` whenever both halves are words |
| `WordChecker.SwappedTwice` | WordChecker.cpp:50-51 | swapping back restores the word |
| `WordChecker.ErasedInserted` | WordChecker.cpp:70-71 | erasing the inserted letter restores the word |
| `WordChecker.InsertedErased` | WordChecker.cpp:92-93 | inserting the saved character back restores the word |
| `WordChecker.ReplacedIsUpdate` | WordChecker.cpp:102-117 | erasing position i and inserting `c` there replaces position i by `c` |
| `WordChecker.ReplacedLetters` | WordChecker.cpp:101-118 | the inner loop of technique 4 tries exactly the 26 replacements of position i, in letter order |
| `WordChecker.FilterMembers` | WordChecker.cpp:44-48 | a kept candidate is a candidate that is in the word set, and every such candidate is kept |
| `WordChecker.FilterCount` | WordChecker.cpp:44-48 | duplicates are never removed: a word is kept as often as it is tried |
| `WordChecker.SwapSuggestions` | WordChecker.cpp:37-53 | technique 1 suggests exactly the words one adjacent swap away |
| `WordChecker.InsertSuggestions` | WordChecker.cpp:55-74 | technique 2 suggests exactly the words one inserted capital letter away |
| `WordChecker.DeleteSuggestions` | WordChecker.cpp:76-95 | technique 3 suggests exactly the words one deletion away |
| `WordChecker.ReplaceSuggestions` | WordChecker.cpp:97-123 | technique 4 suggests exactly the words one capital-letter replacement away, the word itself included |
| `WordChecker.SplitSuggestions` | WordChecker.cpp:125-138 | technique 5 suggests exactly the splits into two non-empty halves that are both words |
| `WordChecker.SuggestionsMembers` | WordChecker.cpp:24-35 | `findSuggestions` returns exactly the words one swap, insertion, deletion or replacement away, plus the two-word splits |
| `WordChecker.SuggestionsLength` | WordChecker.cpp:24-35 | a word of length n gets at most 55n + 24 suggestions |
| `WordChecker.ReplacementsIncludeWord` | WordChecker.cpp:97-123 | a word in the set that starts with a capital letter is suggested for itself by technique 4 |
| `WordChecker.RepeatedSuggestion` | WordChecker.cpp:55-74 | the same suggestion can appear twice: inserting 'A' before or after "A" both give "AA" |

## Left out

- Memory management: `new`/`delete`, the destructors, the recursive node destructors and the node copy constructors. Trees and chains are values. The unused `TreeNode(const TreeNode*)` copy constructor is not part of this model.
- In-place pointer rebinding: rotations, `balance` and `recursiveAdd` are functions that return the new subtree instead of writing through a `TreeNode *&`. The model therefore does not capture node identity or aliasing. Nothing in the source shares nodes.
- The cached `TreeNode::height` field: it is written by `recursiveHeight` and never read, so height is a function only.
- `std::function` plumbing: visitors are traversal functions returning a `seq`. The hash function is a `T -> nat` parameter. The word set is a `set<string>`, since the `Set` base class is not part of this model.
- Integer widths: `unsigned int` results, the `int` fields `_size` and `capacity`, and the element count are unbounded here. Overflow at 2^31 or 2^32 is not modelled.
- Floating point: the `(double)` load ratio is replaced by the equivalent integer test. `HashSet.NeedsResize` proves the equivalence over exact reals, not over doubles.
- Undefined behaviour is a precondition, not an invented value. This covers reads of unwritten cells after `resize`, index queries out of range, technique 1 on an empty word, and self-assignment of a hash set (which reads its own freshly allocated array).
- `HashSet.HashSet.Assign`: only the resulting state is modelled. The requires states what the freeing loop at HashSet.hpp:217-222 needs, because it walks the old array up to the source's capacity.
- `AVLSet.AVLSet.Copy` and `AVLSet.AVLSet.Assign` also stand for the move constructor and move assignment, whose bodies are identical to the copy versions. The source set is left unchanged in every case.
- Complexity claims (O(log n), constant and linear time) are not stated, apart from the logarithmic height bound of balanced trees.
- `WordChecker.WordExists`: this is the word set's `contains` (WordChecker.cpp:18-21), modelled as membership in `words`. There is nothing to prove about it; `WordChecker.FilterMembers` ties the techniques to membership.
- Strings are byte strings in the source. A Dafny `char` here stands for one byte, so a word holding a multi-byte UTF-8 letter is swapped, deleted, replaced and split byte by byte, as in the source. No character encoding is modelled.
- `isImplemented()` and the `WordChecker` constructor are trivial and have no member here.
- The tree element type is `int` rather than a generic totally ordered type.
