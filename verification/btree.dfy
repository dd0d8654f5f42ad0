/** The B+ tree leaf operations of btree.c.

    Nodes live in an arena (`Tree.heap`) and pointers are arena indices, so
    allocating a node appends it to the heap. A node keeps the C struct's
    fixed-size arrays: MAX_KEYS key slots and MAX_KEYS + 1 child slots, of
    which the first `keyCount` keys are live. Leaf children are the stored
    values. */
module BPlusTree {
  import opened Wrappers
  import Search

  const MAX_KEYS: nat := 3

  /** A `void *` or `BPlusNode *` slot: NULL, a stored value, or a node of the heap. */
  datatype Ptr = Null | Value(handle: nat) | NodeAt(index: nat)

  datatype Node = Node(isLeaf: bool, keyCount: int, keys: seq<int>, children: seq<Ptr>, next: Ptr)

  datatype Tree = Tree(heap: seq<Node>, root: nat)

  /** The result of splitLeafNode: the tree afterwards and the new leaf's index. */
  datatype Split = Split(tree: Tree, newLeaf: nat)

  /** The node's arrays have their C sizes and the key count is in range. */
  predicate WellSized(n: Node) {
    |n.keys| == MAX_KEYS && |n.children| == MAX_KEYS + 1 && 0 <= n.keyCount <= MAX_KEYS
  }

  predicate ValidTree(t: Tree) {
    t.root < |t.heap| && forall i :: 0 <= i < |t.heap| ==> WellSized(t.heap[i])
  }

  /** The live keys of a node. */
  function Live(n: Node): seq<int>
    requires WellSized(n)
  {
    n.keys[..n.keyCount]
  }

  predicate Sorted(s: seq<int>) {
    forall i, j :: 0 <= i < j < |s| ==> s[i] <= s[j]
  }

  /** createBPlusNode: no keys, every child NULL, no next leaf. The C code
      leaves the key array uninitialised; here it holds zeros. */
  function CreateBPlusNode(isLeaf: bool): (n: Node)
    ensures WellSized(n) && n.keyCount == 0 && n.isLeaf == isLeaf && n.next == Null
    ensures forall k :: 0 <= k < |n.children| ==> n.children[k] == Null
  {
    Node(isLeaf, 0, seq(MAX_KEYS, _ => 0), seq(MAX_KEYS + 1, _ => Null), Null)
  }

  /** createBPlusTree: the root is a single empty leaf. */
  function CreateBPlusTree(): (t: Tree)
    ensures ValidTree(t) && |t.heap| == 1
    ensures t.heap[t.root].isLeaf && t.heap[t.root].keyCount == 0 && t.heap[t.root].next == Null
    ensures forall k :: 0 <= k < |t.heap[t.root].children| ==> t.heap[t.root].children[k] == Null
  {
    Tree([CreateBPlusNode(true)], 0)
  }

  /** findInsertPosition: the number of leading keys smaller than `key`. */
  function FindInsertPosition(keys: seq<int>, keyCount: int, key: int): (i: nat)
    requires keyCount <= |keys|
    ensures keyCount <= 0 ==> i == 0
    ensures keyCount > 0 ==> i <= keyCount
    ensures forall j :: 0 <= j < i ==> keys[j] < key
    ensures i < keyCount ==> keys[i] >= key
  {
    if keyCount <= 0 then 0
    else
      match Search.First(keys[..keyCount], (k: int) => k >= key)
      case Some(i) => i
      case None => keyCount
  }

  /** The shifting loop of insertIntoLeaf: for `j` from `top` down to `pos + 1`,
      slot `j` takes the content of slot `j - 1`. */
  function ShiftUp<T>(s: seq<T>, pos: nat, top: nat): (r: seq<T>)
    requires pos <= top < |s|
    ensures |r| == |s|
    ensures forall k :: 0 <= k <= pos ==> r[k] == s[k]
    ensures forall k :: pos < k <= top ==> r[k] == s[k - 1]
    ensures forall k :: top < k < |s| ==> r[k] == s[k]
    decreases top - pos
  {
    if top == pos then s
    else ShiftUp(s[top := s[top - 1]], pos, top - 1)
  }

  /** Shifting up and writing the freed slot inserts `x` at `pos` into the
      first `top` entries and leaves the rest alone. */
  lemma ShiftInsert<T>(s: seq<T>, pos: nat, top: nat, x: T)
    requires pos <= top < |s|
    ensures ShiftUp(s, pos, top)[pos := x][..top + 1] == s[..pos] + [x] + s[pos..top]
    ensures ShiftUp(s, pos, top)[pos := x][top + 1..] == s[top + 1..]
  {
    var r := ShiftUp(s, pos, top)[pos := x];
    var want := s[..pos] + [x] + s[pos..top];
    forall k | 0 <= k <= top ensures r[k] == want[k] {
      if k < pos {
        assert want[k] == s[k];
      } else if k > pos {
        assert want[k] == s[k - 1];
      }
    }
    assert r[..top + 1] == want;
  }

  /** insertIntoLeaf. The C code writes keys[keyCount], so the node must have
      room. The key and its value go in at the insert position, the later
      entries move up by one, and the key count grows by one. */
  function InsertIntoLeaf(leaf: Node, key: int, value: Ptr): (r: Node)
    requires WellSized(leaf) && leaf.keyCount < MAX_KEYS
    ensures WellSized(r) && r.keyCount == leaf.keyCount + 1
    ensures r.isLeaf == leaf.isLeaf && r.next == leaf.next
    ensures
      var i := FindInsertPosition(leaf.keys, leaf.keyCount, key);
      && r.keys[..r.keyCount] == leaf.keys[..i] + [key] + leaf.keys[i..leaf.keyCount]
      && r.children[..r.keyCount] == leaf.children[..i] + [value] + leaf.children[i..leaf.keyCount]
      && r.keys[r.keyCount..] == leaf.keys[r.keyCount..]
      && r.children[r.keyCount..] == leaf.children[r.keyCount..]
  {
    var i := FindInsertPosition(leaf.keys, leaf.keyCount, key);
    var keys := ShiftUp(leaf.keys, i, leaf.keyCount)[i := key];
    var children := ShiftUp(leaf.children, i, leaf.keyCount)[i := value];
    ShiftInsert(leaf.keys, i, leaf.keyCount, key);
    ShiftInsert(leaf.children, i, leaf.keyCount, value);
    leaf.(keys := keys, children := children, keyCount := leaf.keyCount + 1)
  }

  /** Inserting adds exactly the new key to the live keys. */
  lemma InsertIntoLeafAddsKey(leaf: Node, key: int, value: Ptr)
    requires WellSized(leaf) && leaf.keyCount < MAX_KEYS
    ensures multiset(Live(InsertIntoLeaf(leaf, key, value))) == multiset(Live(leaf)) + multiset{key}
  {
    var r := InsertIntoLeaf(leaf, key, value);
    var i := FindInsertPosition(leaf.keys, leaf.keyCount, key);
    assert Live(leaf) == leaf.keys[..i] + leaf.keys[i..leaf.keyCount];
  }

  /** Inserting into a node whose live keys ascend keeps them ascending. */
  lemma InsertIntoLeafKeepsOrder(leaf: Node, key: int, value: Ptr)
    requires WellSized(leaf) && leaf.keyCount < MAX_KEYS
    ensures Sorted(Live(leaf)) ==> Sorted(Live(InsertIntoLeaf(leaf, key, value)))
  {
    if Sorted(Live(leaf)) {
      var i := FindInsertPosition(leaf.keys, leaf.keyCount, key);
      var before := leaf.keys[..i];
      var after := leaf.keys[i..leaf.keyCount];
      assert Live(leaf) == before + after;
      forall k | 0 <= k < |after| ensures key <= after[k] {
        assert Live(leaf)[i] <= Live(leaf)[i + k];
      }
      SortedInsert(before, key, after);
    }
  }

  /** A key above everything before it and below everything after it keeps
      an ascending sequence ascending. */
  lemma SortedInsert(before: seq<int>, key: int, after: seq<int>)
    requires Sorted(before + after)
    requires forall k :: 0 <= k < |before| ==> before[k] < key
    requires forall k :: 0 <= k < |after| ==> key <= after[k]
    ensures Sorted(before + [key] + after)
  {
    var s := before + [key] + after;
    var t := before + after;
    forall a, b | 0 <= a < b < |s| ensures s[a] <= s[b] {
      var n := |before|;
      if b < n {
        assert s[a] == t[a] && s[b] == t[b];
      } else if b == n {
        assert s[a] == before[a];
      } else if a == n {
        assert s[b] == after[b - n - 1];
      } else if a < n {
        assert s[a] == t[a] && s[b] == t[b - 1];
      } else {
        assert s[a] == t[a - 1] && s[b] == t[b - 1];
      }
    }
  }

  /** splitLeafNode: a new leaf takes key and child slots MAX_KEYS/2 .. MAX_KEYS
      of the old one, the old leaf keeps the first MAX_KEYS/2 keys, and the new
      leaf is linked in right after the old one. */
  function SplitLeafNode(t: Tree, leafIndex: nat): (r: Split)
    requires ValidTree(t) && leafIndex < |t.heap|
    ensures ValidTree(r.tree) && r.tree.root == t.root
    ensures r.newLeaf == |t.heap| && |r.tree.heap| == |t.heap| + 1
    ensures forall k :: 0 <= k < |t.heap| && k != leafIndex ==> r.tree.heap[k] == t.heap[k]
    ensures
      var orig := t.heap[leafIndex];
      var left := r.tree.heap[leafIndex];
      var right := r.tree.heap[r.newLeaf];
      && left.keyCount == MAX_KEYS / 2 && right.keyCount == MAX_KEYS - MAX_KEYS / 2
      && right.isLeaf && left.isLeaf == orig.isLeaf
      && orig.keys == Live(left) + Live(right)
      && orig.children[..MAX_KEYS] == left.children[..MAX_KEYS / 2] + right.children[..MAX_KEYS - MAX_KEYS / 2]
      && left.next == NodeAt(r.newLeaf) && right.next == orig.next
  {
    var leaf := t.heap[leafIndex];
    var mid := MAX_KEYS / 2;
    var blankLeaf := CreateBPlusNode(true);
    var right := blankLeaf.(keys := leaf.keys[mid..] + blankLeaf.keys[MAX_KEYS - mid..],
                        children := leaf.children[mid..MAX_KEYS] + blankLeaf.children[MAX_KEYS - mid..],
                        keyCount := MAX_KEYS - mid,
                        next := leaf.next);
    var left := leaf.(keyCount := mid, next := NodeAt(|t.heap|));
    assert leaf.keys == leaf.keys[..mid] + leaf.keys[mid..];
    assert right.keys[..MAX_KEYS - mid] == leaf.keys[mid..];
    assert leaf.children[..MAX_KEYS] == leaf.children[..mid] + leaf.children[mid..MAX_KEYS];
    Split(Tree(t.heap[leafIndex := left] + [right], t.root), |t.heap|)
  }

  /** Splitting a full leaf with ascending keys leaves both halves ascending
      and every key of the old leaf at most every key of the new one. */
  lemma SplitKeepsOrder(t: Tree, leafIndex: nat)
    requires ValidTree(t) && leafIndex < |t.heap|
    requires t.heap[leafIndex].keyCount == MAX_KEYS && Sorted(Live(t.heap[leafIndex]))
    ensures
      var r := SplitLeafNode(t, leafIndex);
      var left := Live(r.tree.heap[leafIndex]);
      var right := Live(r.tree.heap[r.newLeaf]);
      && Live(t.heap[leafIndex]) == left + right
      && Sorted(left) && Sorted(right)
      && forall a, b :: 0 <= a < |left| && 0 <= b < |right| ==> left[a] <= right[b]
  {
    var r := SplitLeafNode(t, leafIndex);
    var left := Live(r.tree.heap[leafIndex]);
    var right := Live(r.tree.heap[r.newLeaf]);
    var all := Live(t.heap[leafIndex]);
    assert all == left + right;
    forall a, b | 0 <= a < |left| && 0 <= b < |right|
      ensures left[a] <= right[b]
    {
      assert left[a] == all[a] && right[b] == all[|left| + b];
    }
    forall a, b | 0 <= a < b < |right|
      ensures right[a] <= right[b]
    {
      assert right[a] == all[|left| + a] && right[b] == all[|left| + b];
    }
  }

  /** insertIntoRoot. With room the key goes into the root as into a leaf.
      A full root is split under a new non-leaf root whose one key is the new
      leaf's first key and whose two children are the old root and the new
      leaf; the incoming key and value are not inserted at all. */
  function InsertIntoRoot(t: Tree, key: int, value: Ptr): (r: Tree)
    requires ValidTree(t)
    ensures ValidTree(r)
    ensures t.heap[t.root].keyCount < MAX_KEYS ==>
      && r.root == t.root && |r.heap| == |t.heap|
      && r.heap == t.heap[t.root := InsertIntoLeaf(t.heap[t.root], key, value)]
    ensures t.heap[t.root].keyCount == MAX_KEYS ==> r == GrowRoot(t)
  {
    var root := t.heap[t.root];
    if root.keyCount < MAX_KEYS then
      t.(heap := t.heap[t.root := InsertIntoLeaf(root, key, value)])
    else
      GrowRoot(t)
  }

  /** The full-root branch of insertIntoRoot: split the root and put a new
      internal root with one separator key above the two halves. */
  function GrowRoot(t: Tree): (r: Tree)
    requires ValidTree(t) && t.heap[t.root].keyCount == MAX_KEYS
    ensures ValidTree(r)
    ensures r.root == |t.heap| && |r.heap| == |t.heap| + 2
    ensures
      var newRoot := r.heap[r.root];
      var oldRoot := r.heap[t.root];
      var newLeaf := r.heap[|t.heap| + 1];
      && !newRoot.isLeaf && newRoot.keyCount == 1
      && newRoot.keys[0] == newLeaf.keys[0] == t.heap[t.root].keys[MAX_KEYS / 2]
      && newRoot.children[0] == NodeAt(t.root) && newRoot.children[1] == NodeAt(|t.heap| + 1)
      && Live(oldRoot) + Live(newLeaf) == Live(t.heap[t.root])
      && oldRoot.keyCount == MAX_KEYS / 2 && newLeaf.keyCount == MAX_KEYS - MAX_KEYS / 2
      && t.heap[t.root].children[..MAX_KEYS] == oldRoot.children[..MAX_KEYS / 2] + newLeaf.children[..MAX_KEYS - MAX_KEYS / 2]
      && newLeaf.isLeaf && oldRoot.isLeaf == t.heap[t.root].isLeaf
      && oldRoot.next == NodeAt(|t.heap| + 1) && newLeaf.next == t.heap[t.root].next
    ensures forall k :: 0 <= k < |t.heap| && k != t.root ==> r.heap[k] == t.heap[k]
  {
      var rootIndex := |t.heap|;
      var withRoot := Tree(t.heap + [CreateBPlusNode(false)], t.root);
      var split := SplitLeafNode(withRoot, t.root);
      var newLeaf := split.tree.heap[split.newLeaf];
      var blank := split.tree.heap[rootIndex];
      var newRoot := blank.(keys := blank.keys[0 := newLeaf.keys[0]],
                            children := blank.children[0 := NodeAt(t.root)][1 := NodeAt(split.newLeaf)],
                            keyCount := 1);
      Tree(split.tree.heap[rootIndex := newRoot], rootIndex)
  }

  /** insert: a leaf root takes the key directly, with no check for room
      (so the root must not be full); any other root goes to insertIntoRoot. */
  function Insert(t: Tree, key: int, value: Ptr): (r: Tree)
    requires ValidTree(t)
    requires t.heap[t.root].isLeaf ==> t.heap[t.root].keyCount < MAX_KEYS
    ensures ValidTree(r)
    ensures t.heap[t.root].isLeaf ==> r.heap[r.root] == InsertIntoLeaf(t.heap[t.root], key, value)
    ensures t.heap[t.root].isLeaf ==>
      && r.root == t.root && |r.heap| == |t.heap| && r.heap[r.root].isLeaf
      && r.heap[r.root].keyCount == t.heap[t.root].keyCount + 1
      && multiset(Live(r.heap[r.root])) == multiset(Live(t.heap[t.root])) + multiset{key}
      && (Sorted(Live(t.heap[t.root])) ==> Sorted(Live(r.heap[r.root])))
      && forall k :: 0 <= k < |t.heap| && k != t.root ==> r.heap[k] == t.heap[k]
    ensures !t.heap[t.root].isLeaf ==> r == InsertIntoRoot(t, key, value)
  {
    var root := t.heap[t.root];
    if root.isLeaf then
      InsertIntoLeafAddsKey(root, key, value);
      InsertIntoLeafKeepsOrder(root, key, value);
      t.(heap := t.heap[t.root := InsertIntoLeaf(root, key, value)])
    else
      InsertIntoRoot(t, key, value)
  }

  /** Inserting into the leaf root of a one-node tree replaces that node. */
  lemma InsertIntoSingleLeaf(n: Node, key: int, value: Ptr)
    requires WellSized(n) && n.isLeaf && n.keyCount < MAX_KEYS
    ensures Insert(Tree([n], 0), key, value) == Tree([InsertIntoLeaf(n, key, value)], 0)
  {
    assert [n][0 := InsertIntoLeaf(n, key, value)] == [InsertIntoLeaf(n, key, value)];
  }

  /** The three inserts of the call sequence in main, one node at a time. */
  lemma FirstInsertInMain()
    ensures Live(InsertIntoLeaf(CreateBPlusNode(true), 10, Value(10))) == [10]
  {
    assert FindInsertPosition(CreateBPlusNode(true).keys, 0, 10) == 0;
  }

  lemma SecondInsertInMain(n: Node)
    requires WellSized(n) && Live(n) == [10]
    ensures Live(InsertIntoLeaf(n, 20, Value(20))) == [10, 20]
  {
    assert n.keys[0] == 10;
    assert FindInsertPosition(n.keys, 1, 20) == 1;
  }

  lemma ThirdInsertInMain(n: Node)
    requires WellSized(n) && Live(n) == [10, 20]
    ensures Live(InsertIntoLeaf(n, 5, Value(5))) == [5, 10, 20]
  {
    assert n.keys[0] == 10;
    assert FindInsertPosition(n.keys, 2, 5) == 0;
  }

  /** The call sequence in main: after inserting 10, 20 and 5 into a new tree the
      root is still a leaf and holds 5, 10, 20, so it is full and the fourth
      insert (of 30) does not meet insert's requirement: it would write past
      the end of the key array. */
  lemma MainScenarioFourthInsertOverflows()
    ensures
      var t0 := CreateBPlusTree();
      var t1 := Insert(t0, 10, Value(10));
      var t2 := Insert(t1, 20, Value(20));
      && (t2.heap[t2.root].isLeaf ==> t2.heap[t2.root].keyCount < MAX_KEYS)
      && var t3 := Insert(t2, 5, Value(5));
      && t3.heap[t3.root].isLeaf
      && Live(t3.heap[t3.root]) == [5, 10, 20]
      && !(t3.heap[t3.root].isLeaf ==> t3.heap[t3.root].keyCount < MAX_KEYS)
  {
    var n0 := CreateBPlusNode(true);
    var n1 := InsertIntoLeaf(n0, 10, Value(10));
    FirstInsertInMain();
    InsertIntoSingleLeaf(n0, 10, Value(10));
    var n2 := InsertIntoLeaf(n1, 20, Value(20));
    SecondInsertInMain(n1);
    InsertIntoSingleLeaf(n1, 20, Value(20));
    ThirdInsertInMain(n2);
    InsertIntoSingleLeaf(n2, 5, Value(5));
  }
}
