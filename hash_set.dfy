/**
 * The separately chained hash table set. The table is an array of cells;
 * each cell is either a chain of elements (a NULL head pointer is the empty
 * chain) or a cell the code never wrote, whose content it must not read. A
 * chain is a value here: the source's chain nodes are each owned by exactly
 * one cell and copying a chain copies every node, so no two cells share one.
 */
module HashSet {

  /** DEFAULT_CAPACITY: the capacity of a newly constructed set. */
  const DefaultCapacity: nat := 10

  datatype Cell<T> = Uninitialised | Chain(elements: seq<T>)

  // ---------------------------------------------------------------------------
  // Views of a table of cells
  // ---------------------------------------------------------------------------

  function ChainLength<T>(c: Cell<T>): nat
  {
    if c.Chain? then |c.elements| else 0
  }

  /** The number of elements held in all the chains. */
  function TotalLength<T>(cells: seq<Cell<T>>): nat
  {
    if cells == [] then 0 else ChainLength(cells[0]) + TotalLength(cells[1..])
  }

  /** Every cell holds a chain (possibly empty), so every cell may be read. */
  ghost predicate AllInitialised<T>(cells: seq<Cell<T>>)
  {
    forall i :: 0 <= i < |cells| ==> cells[i].Chain?
  }

  /** `e` is stored somewhere in the table, at whatever index. */
  ghost predicate Member<T>(cells: seq<Cell<T>>, e: T)
  {
    exists i :: 0 <= i < |cells| && cells[i].Chain? && e in cells[i].elements
  }

  /** Every element sits in the cell its hash selects for the current capacity. */
  ghost predicate Placed<T>(cells: seq<Cell<T>>, hash: T -> nat)
  {
    forall i, x :: 0 <= i < |cells| && cells[i].Chain? && x in cells[i].elements ==> hash(x) % |cells| == i
  }

  /** The index an element hashes to: the hash value modulo the capacity. */
  function Slot<T>(hash: T -> nat, e: T, capacity: nat): (i: nat)
    requires capacity > 0
    ensures i < capacity
  {
    hash(e) % capacity
  }

  /** The hash function a copied set is given: it sends every element to 0. */
  function UndefinedHash<T>(e: T): nat
  {
    0
  }

  /**
   * The resize test of add, `(double)size / capacity > 0.8`, on integers. The
   * quotient of two 32-bit integers is never close enough to 0.8 for the
   * rounding of the double to change the outcome.
   */
  function NeedsResize(size: nat, capacity: nat): (b: bool)
    requires capacity > 0
    ensures b <==> (size as real) / (capacity as real) > 0.8
  {
    RatioTest(size, capacity);
    5 * size > 4 * capacity
  }

  lemma RatioTest(size: nat, capacity: nat)
    requires capacity > 0
    ensures 5 * size > 4 * capacity <==> (size as real) / (capacity as real) > 0.8
  {
    var c := capacity as real;
    var q := (size as real) / c;
    assert q * c == size as real;
    assert q <= 0.8 ==> q * c <= 0.8 * c;
    assert q > 0.8 ==> q * c > 0.8 * c;
  }

  /** The table after resize: twice as long, the old cells kept at their old indices, the new upper half never written. */
  function Resized<T>(cells: seq<Cell<T>>): (r: seq<Cell<T>>)
    ensures |r| == 2 * |cells| && r[..|cells|] == cells
    ensures forall i :: |cells| <= i < |r| ==> r[i] == Uninitialised
  {
    cells + seq(|cells|, _ => Uninitialised)
  }

  /** The table add hashes into: resized first when the load test fires. */
  function ResizedIfFull<T>(cells: seq<Cell<T>>, size: nat): seq<Cell<T>>
    requires |cells| > 0
  {
    if NeedsResize(size, |cells|) then Resized(cells) else cells
  }

  /**
   * What add needs so that it reads no unwritten cell: resize copies every
   * old cell, and the new node's `next` is the head of the target cell.
   */
  ghost predicate AddDefined<T>(cells: seq<Cell<T>>, size: nat, hash: T -> nat, e: T)
  {
    |cells| > 0 &&
    (NeedsResize(size, |cells|) ==> AllInitialised(cells)) &&
    var c := ResizedIfFull(cells, size);
    c[Slot(hash, e, |c|)].Chain?
  }

  /** The table after add: the element is pushed onto the front of its cell's chain, without a duplicate test. */
  function AfterAdd<T>(cells: seq<Cell<T>>, size: nat, hash: T -> nat, e: T): seq<Cell<T>>
    requires AddDefined(cells, size, hash, e)
  {
    var c := ResizedIfFull(cells, size);
    var i := Slot(hash, e, |c|);
    c[i := Chain([e] + c[i].elements)]
  }

  // ---------------------------------------------------------------------------
  // The set object
  // ---------------------------------------------------------------------------

  class HashSet<T(==)> {
    const hashFunction: T -> nat
    var size: nat
    var capacity: nat
    var buckets: array<Cell<T>>

    /**
     * The object invariant: the array has `capacity` cells, at least the
     * default; `size` counts the stored elements; and add's resize test keeps
     * the load below 0.8 before every insertion, so size <= 0.8 * capacity + 1.
     */
    ghost predicate Valid()
      reads this, buckets
    {
      buckets.Length == capacity && capacity >= DefaultCapacity &&
      TotalLength(buckets[..]) == size &&
      5 * size <= 4 * capacity + 5
    }

    /** HashSet(hashFunction): DEFAULT_CAPACITY empty chains. */
    constructor (hashFunction: T -> nat)
      ensures Valid()
      ensures this.hashFunction == hashFunction && size == 0 && capacity == DefaultCapacity
      ensures forall i :: 0 <= i < capacity ==> buckets[i] == Chain([])
    {
      var a := new Cell<T>[DefaultCapacity](_ => Uninitialised);
      var i := 0;
      while i < a.Length
        invariant 0 <= i <= a.Length
        invariant forall k :: 0 <= k < i ==> a[k] == Chain([])
        modifies a
      {
        a[i] := Chain([]);
        i := i + 1;
      }
      TotalLengthZero(a[..]);
      this.hashFunction := hashFunction;
      size := 0;
      capacity := DefaultCapacity;
      buckets := a;
    }

    /**
     * The copy constructor, and the move constructor that does the same: the
     * same size, capacity and chains, but the undefined hash function in
     * place of the source's. Every source cell is read.
     */
    constructor Copy(s: HashSet<T>)
      requires s.Valid() && AllInitialised(s.buckets[..])
      ensures Valid()
      ensures forall x :: hashFunction(x) == 0
      ensures size == s.size && capacity == s.capacity
      ensures fresh(buckets) && buckets[..] == s.buckets[..]
    {
      var a := new Cell<T>[s.capacity](_ => Uninitialised);
      var i := 0;
      while i < a.Length
        invariant 0 <= i <= a.Length
        invariant forall k :: 0 <= k < i ==> a[k] == s.buckets[k]
        modifies a
      {
        a[i] := s.buckets[i];
        i := i + 1;
      }
      assert a[..] == s.buckets[..];
      hashFunction := UndefinedHash;
      size := s.size;
      capacity := s.capacity;
      buckets := a;
    }

    /**
     * Copy and move assignment: size and capacity are taken from `s` first,
     * then this set's first `s.capacity` old cells are freed (so they must be
     * readable and must exist), then `s`'s chains are copied into a new array.
     * The hash function is not assigned. Assigning a set to itself reads the
     * new, unwritten array through `s`, so `s` must be another set.
     */
    method Assign(s: HashSet<T>)
      requires s != this && Valid() && s.Valid()
      requires s.capacity <= capacity && AllInitialised(buckets[..s.capacity])
      requires AllInitialised(s.buckets[..])
      modifies this
      ensures Valid()
      ensures size == s.size && capacity == s.capacity
      ensures fresh(buckets) && buckets[..] == s.buckets[..]
    {
      size := s.size;
      capacity := s.capacity;
      var a := new Cell<T>[capacity](_ => Uninitialised);
      var i := 0;
      while i < a.Length
        invariant 0 <= i <= a.Length
        invariant forall k :: 0 <= k < i ==> a[k] == s.buckets[k]
        modifies a
      {
        a[i] := s.buckets[i];
        i := i + 1;
      }
      assert a[..] == s.buckets[..];
      buckets := a;
    }

    /**
     * resize: a new array twice as long; each old chain is copied to the same
     * index and the upper half is left unwritten. Nothing is rehashed.
     */
    method Resize()
      requires Valid() && AllInitialised(buckets[..])
      modifies this
      ensures fresh(buckets) && buckets[..] == Resized(old(buckets[..]))
      ensures capacity == 2 * old(capacity) && size == old(size)
      ensures TotalLength(buckets[..]) == size
    {
      var newArray := new Cell<T>[2 * capacity](_ => Uninitialised);
      var i := 0;
      while i < capacity
        invariant 0 <= i <= capacity
        invariant forall k :: 0 <= k < i ==> newArray[k] == buckets[k]
        invariant forall k :: i <= k < newArray.Length ==> newArray[k] == Uninitialised
        modifies newArray
      {
        newArray[i] := buckets[i];
        i := i + 1;
      }
      assert newArray[..] == Resized(buckets[..]);
      ResizedTotalLength(buckets[..]);
      buckets := newArray;
      capacity := 2 * capacity;
    }

    /**
     * add: resize first when size / capacity > 0.8, then push `e` onto the
     * front of the chain at hash(e) % capacity and count it, whether or not
     * it is already present.
     */
    method Add(e: T)
      requires Valid() && AddDefined(buckets[..], size, hashFunction, e)
      modifies this, buckets
      ensures Valid()
      ensures buckets[..] == AfterAdd(old(buckets[..]), old(size), hashFunction, e)
      ensures size == old(size) + 1
      ensures capacity == if NeedsResize(old(size), old(capacity)) then 2 * old(capacity) else old(capacity)
    {
      ghost var cells := buckets[..];
      if NeedsResize(size, capacity) {
        Resize();
      }
      assert buckets[..] == ResizedIfFull(cells, size);
      var index := Slot(hashFunction, e, capacity);
      ghost var before := buckets[..];
      buckets[index] := Chain([e] + buckets[index].elements);
      TotalLengthUpdate(before, index, Chain([e] + before[index].elements));
      assert buckets[..] == before[index := Chain([e] + before[index].elements)];
      size := size + 1;
    }

    /** contains: walks the chain at hash(e) % capacity and reports whether `e` is on it. */
    method Contains(e: T) returns (b: bool)
      requires Valid() && buckets[Slot(hashFunction, e, capacity)].Chain?
      ensures b <==> e in buckets[Slot(hashFunction, e, capacity)].elements
    {
      var chain := buckets[Slot(hashFunction, e, capacity)].elements;
      var j := 0;
      while j < |chain|
        invariant 0 <= j <= |chain|
        invariant e !in chain[..j]
      {
        if chain[j] == e {
          return true;
        }
        j := j + 1;
      }
      assert chain[..j] == chain;
      return false;
    }

    /** size: the number of elements stored in all the chains. */
    function Size(): (n: nat)
      requires Valid()
      reads this, buckets
      ensures n == TotalLength(buckets[..])
    {
      size
    }

    /** elementsAtIndex: the length of the chain at `index`. */
    method ElementsAtIndex(index: nat) returns (count: nat)
      requires Valid() && index < capacity && buckets[index].Chain?
      ensures count == |buckets[index].elements|
    {
      var chain := buckets[index].elements;
      count := 0;
      var rest := chain;
      while rest != []
        invariant count + |rest| == |chain|
      {
        count := count + 1;
        rest := rest[1..];
      }
    }

    /** isElementAtIndex: whether `e` is on the chain at `index`. */
    method IsElementAtIndex(e: T, index: nat) returns (b: bool)
      requires Valid() && index < capacity && buckets[index].Chain?
      ensures b <==> e in buckets[index].elements
    {
      var chain := buckets[index].elements;
      var j := 0;
      while j < |chain|
        invariant 0 <= j <= |chain|
        invariant e !in chain[..j]
      {
        if chain[j] == e {
          return true;
        }
        j := j + 1;
      }
      assert chain[..j] == chain;
      return false;
    }
  }

  // ---------------------------------------------------------------------------
  // Lemmas: element count
  // ---------------------------------------------------------------------------

  lemma {:induction false} TotalLengthZero<T>(cells: seq<Cell<T>>)
    requires forall i :: 0 <= i < |cells| ==> ChainLength(cells[i]) == 0
    ensures TotalLength(cells) == 0
  {
    if cells != [] {
      TotalLengthZero(cells[1..]);
    }
  }

  lemma {:induction false} TotalLengthAppend<T>(a: seq<Cell<T>>, b: seq<Cell<T>>)
    ensures TotalLength(a + b) == TotalLength(a) + TotalLength(b)
  {
    if a != [] {
      assert (a + b)[0] == a[0];
      assert (a + b)[1..] == a[1..] + b;
      TotalLengthAppend(a[1..], b);
    } else {
      assert a + b == b;
    }
  }

  /** Replacing one cell changes the count by the difference of the two chains' lengths. */
  lemma {:induction false} TotalLengthUpdate<T>(cells: seq<Cell<T>>, i: nat, c: Cell<T>)
    requires i < |cells|
    ensures TotalLength(cells[i := c]) == TotalLength(cells) - ChainLength(cells[i]) + ChainLength(c)
  {
    if i == 0 {
      assert cells[i := c][1..] == cells[1..];
    } else {
      assert cells[i := c][1..] == cells[1..][i - 1 := c];
      TotalLengthUpdate(cells[1..], i - 1, c);
    }
  }

  /** resize neither loses nor adds elements. */
  lemma ResizedTotalLength<T>(cells: seq<Cell<T>>)
    ensures TotalLength(Resized(cells)) == TotalLength(cells)
  {
    var upper := seq(|cells|, _ => Uninitialised);
    assert Resized(cells) == cells + upper;
    TotalLengthAppend(cells, upper);
    TotalLengthZero(upper);
  }

  // ---------------------------------------------------------------------------
  // Lemmas: add
  // ---------------------------------------------------------------------------

  /** add stores exactly one more element, with or without a resize. */
  lemma AddCountsOne<T>(cells: seq<Cell<T>>, size: nat, hash: T -> nat, e: T)
    requires AddDefined(cells, size, hash, e)
    ensures TotalLength(AfterAdd(cells, size, hash, e)) == TotalLength(cells) + 1
  {
    var c := ResizedIfFull(cells, size);
    var i := Slot(hash, e, |c|);
    ResizedTotalLength(cells);
    TotalLengthUpdate(c, i, Chain([e] + c[i].elements));
  }

  /** Right after add, the cell contains(e) walks is initialised and holds `e`. */
  lemma AddThenFound<T>(cells: seq<Cell<T>>, size: nat, hash: T -> nat, e: T)
    requires AddDefined(cells, size, hash, e)
    ensures var r := AfterAdd(cells, size, hash, e);
      |r| > 0 && r[Slot(hash, e, |r|)].Chain? && e in r[Slot(hash, e, |r|)].elements
  {
  }

  /** resize keeps exactly the stored elements. */
  lemma ResizedMembers<T>(cells: seq<Cell<T>>, x: T)
    ensures Member(Resized(cells), x) <==> Member(cells, x)
  {
    var r := Resized(cells);
    if Member(r, x) {
      var i :| 0 <= i < |r| && r[i].Chain? && x in r[i].elements;
      assert i < |cells| && r[i] == cells[i];
    }
    if Member(cells, x) {
      var i :| 0 <= i < |cells| && cells[i].Chain? && x in cells[i].elements;
      assert r[i] == cells[i];
    }
  }

  /** add makes `e` a member and changes nothing else: every other element is a member afterwards iff it was before. */
  lemma AddMembers<T>(cells: seq<Cell<T>>, size: nat, hash: T -> nat, e: T, x: T)
    requires AddDefined(cells, size, hash, e)
    ensures Member(AfterAdd(cells, size, hash, e), x) <==> Member(cells, x) || x == e
  {
    var c := ResizedIfFull(cells, size);
    var i := Slot(hash, e, |c|);
    var r := AfterAdd(cells, size, hash, e);
    ResizedMembers(cells, x);
    assert Member(c, x) <==> Member(cells, x);
    if Member(r, x) && x != e {
      var k :| 0 <= k < |r| && r[k].Chain? && x in r[k].elements;
      assert c[k].Chain? && x in c[k].elements;
    }
    if Member(c, x) {
      var k :| 0 <= k < |c| && c[k].Chain? && x in c[k].elements;
      assert r[k].Chain? && x in r[k].elements;
    }
    if x == e {
      assert r[i].Chain? && x in r[i].elements;
    }
  }

  /** add on a table that does not need resizing files `e` under its hash, so every element stays where its hash selects. */
  lemma AddKeepsPlacement<T>(cells: seq<Cell<T>>, size: nat, hash: T -> nat, e: T)
    requires AddDefined(cells, size, hash, e) && Placed(cells, hash)
    requires !NeedsResize(size, |cells|)
    ensures Placed(AfterAdd(cells, size, hash, e), hash)
  {
    var r := AfterAdd(cells, size, hash, e);
    var i := Slot(hash, e, |cells|);
    forall k, x | 0 <= k < |r| && r[k].Chain? && x in r[k].elements
      ensures hash(x) % |r| == k
    {
      if k == i && x != e {
        assert x in cells[k].elements;
      }
    }
  }

  /** add has no duplicate test: adding an element already in its cell leaves two copies there. */
  lemma AddAdmitsDuplicate<T>(cells: seq<Cell<T>>, size: nat, hash: T -> nat, e: T)
    requires AddDefined(cells, size, hash, e)
    requires var c := ResizedIfFull(cells, size); e in c[Slot(hash, e, |c|)].elements
    ensures TotalLength(AfterAdd(cells, size, hash, e)) == TotalLength(cells) + 1
    ensures var r := AfterAdd(cells, size, hash, e);
      multiset(r[Slot(hash, e, |r|)].elements)[e] >= 2
  {
    AddCountsOne(cells, size, hash, e);
    var c := ResizedIfFull(cells, size);
    var i := Slot(hash, e, |c|);
    assert multiset([e] + c[i].elements) == multiset{e} + multiset(c[i].elements);
  }

  /** With the default capacity of 10 the load test fires from a size of 9 on, that is on the tenth add. */
  lemma DefaultThreshold(size: nat)
    ensures NeedsResize(size, DefaultCapacity) <==> size >= 9
  {
  }

  // ---------------------------------------------------------------------------
  // Lemmas: lookup, and where resize and copying break it
  // ---------------------------------------------------------------------------

  /** When every element sits where its hash selects, the single-cell walk of contains finds exactly the members. */
  lemma PlacedLookupExact<T>(cells: seq<Cell<T>>, hash: T -> nat, e: T)
    requires |cells| > 0 && Placed(cells, hash)
    requires cells[Slot(hash, e, |cells|)].Chain?
    ensures Member(cells, e) <==> e in cells[Slot(hash, e, |cells|)].elements
  {
    if Member(cells, e) {
      var k :| 0 <= k < |cells| && cells[k].Chain? && e in cells[k].elements;
      assert hash(e) % |cells| == k;
    }
  }

  lemma ModDouble(h: nat, n: nat)
    requires n > 0
    ensures h % (2 * n) == h % n || h % (2 * n) == h % n + n
  {
    var q, r := h / (2 * n), h % (2 * n);
    assert h == (2 * n) * q + r;
    Doubling(n, q);
    if r < n {
      assert h == n * (2 * q) + r;
      ModUnique(h, n, 2 * q, r);
    } else {
      assert h == n * (2 * q + 1) + (r - n);
      ModUnique(h, n, 2 * q + 1, r - n);
    }
  }

  lemma Doubling(n: int, q: int)
    ensures (2 * n) * q == n * (2 * q)
    ensures n * (2 * q + 1) == n * (2 * q) + n
  {
  }

  lemma ModUnique(h: nat, n: nat, q: int, r: nat)
    requires n > 0 && r < n && h == n * q + r
    ensures h % n == r
  {
    var q', r' := h / n, h % n;
    assert n * q' + r' == n * q + r;
    assert q' < q ==> n * q' + r' < n * (q' + 1) <= n * q;
    assert q' > q ==> n * q + r < n * (q + 1) <= n * q';
  }

  /**
   * After resize, an element whose slot under the doubled capacity differs
   * from its old index has its new slot in the upper half, which resize never
   * writes: contains would read an unwritten cell.
   */
  lemma ResizedSlotUnwritten<T>(cells: seq<Cell<T>>, hash: T -> nat, i: nat, x: T)
    requires Placed(cells, hash)
    requires i < |cells| && cells[i].Chain? && x in cells[i].elements
    requires Slot(hash, x, 2 * |cells|) != i
    ensures Resized(cells)[Slot(hash, x, 2 * |cells|)] == Uninitialised
    ensures Member(Resized(cells), x) && !Placed(Resized(cells), hash)
  {
    ModDouble(hash(x), |cells|);
    ResizedMembers(cells, x);
    assert Resized(cells)[i] == cells[i];
  }

  function Identity(x: nat): nat
  {
    x
  }

  /** The first resize of a table filed by the identity hash: 15, in cell 5 of 10, should be looked up in cell 15 of 20, which is unwritten. */
  lemma ResizeMisplacesExample()
    ensures var cells: seq<Cell<nat>> := seq(10, i => if i == 5 then Chain([15]) else Chain([]));
      Placed(cells, Identity) &&
      Member(Resized(cells), 15) &&
      Resized(cells)[Slot(Identity, 15, 20)] == Uninitialised
  {
    var cells: seq<Cell<nat>> := seq(10, i => if i == 5 then Chain([15]) else Chain([]));
    forall i, x | 0 <= i < |cells| && cells[i].Chain? && x in cells[i].elements
      ensures Identity(x) % |cells| == i
    {
      assert i == 5 && x == 15;
    }
    ResizedSlotUnwritten(cells, Identity, 5, 15);
  }

  /** A copy hashes every element to cell 0, so it misses an element the original keeps in cell 3. */
  lemma CopyMissesExample()
    ensures var cells: seq<Cell<nat>> := seq(10, i => if i == 3 then Chain([3]) else Chain([]));
      Placed(cells, Identity) &&
      Member(cells, 3) &&
      cells[Slot(UndefinedHash, 3, 10)].Chain? &&
      3 !in cells[Slot(UndefinedHash, 3, 10)].elements
  {
    var cells: seq<Cell<nat>> := seq(10, i => if i == 3 then Chain([3]) else Chain([]));
    forall i, x | 0 <= i < |cells| && cells[i].Chain? && x in cells[i].elements
      ensures Identity(x) % |cells| == i
    {
      assert i == 3 && x == 3;
    }
    assert cells[3].Chain? && 3 in cells[3].elements;
  }
}
