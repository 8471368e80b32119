/** A splay tree mapping integer keys to integer values.

    Trees are immutable values: each operation of the modelled class that
    reassigns its root here returns the new tree. The splay step is the
    recursive zig / zig-zig / zig-zag scheme of the modelled code, case for
    case. */
module SplayTree {
  import opened Wrappers

  datatype Tree = Leaf | Node(left: Tree, key: int, value: int, right: Tree)

  /** The (key, value) pairs of a tree, left to right. */
  function InOrder(t: Tree): seq<(int, int)>
  {
    match t
    case Leaf => []
    case Node(l, k, v, r) => InOrder(l) + [(k, v)] + InOrder(r)
  }

  function Keys(t: Tree): set<int>
  {
    match t
    case Leaf => {}
    case Node(l, k, _, r) => Keys(l) + {k} + Keys(r)
  }

  /** Binary-search-tree ordering: every key in a left subtree is smaller, and
      every key in a right subtree larger, than the key of their node. */
  predicate IsBst(t: Tree)
  {
    match t
    case Leaf => true
    case Node(l, k, _, r) =>
      && IsBst(l) && IsBst(r)
      && (forall x | x in Keys(l) :: x < k)
      && (forall x | x in Keys(r) :: k < x)
  }

  /** Keys strictly increase along a sequence of pairs. */
  predicate Ascending(s: seq<(int, int)>)
  {
    forall i, j | 0 <= i < j < |s| :: s[i].0 < s[j].0
  }

  /** The keys of a tree are exactly the keys of its in-order sequence. */
  lemma {:induction false} KeysOfInOrder(t: Tree)
    ensures forall i | 0 <= i < |InOrder(t)| :: InOrder(t)[i].0 in Keys(t)
    ensures forall x | x in Keys(t) :: exists i | 0 <= i < |InOrder(t)| :: InOrder(t)[i].0 == x
  {
    match t
    case Leaf =>
    case Node(l, k, v, r) =>
      KeysOfInOrder(l);
      KeysOfInOrder(r);
      var s := InOrder(t);
      var sl := InOrder(l);
      var sr := InOrder(r);
      assert s == sl + [(k, v)] + sr;
      assert Keys(t) == Keys(l) + {k} + Keys(r);
      forall i | 0 <= i < |s|
        ensures s[i].0 in Keys(t)
      {
        if i < |sl| {
          assert sl[i] == s[i];
        } else if |sl| < i {
          assert sr[i - |sl| - 1] == s[i];
        }
      }
      forall x | x in Keys(t)
        ensures exists i | 0 <= i < |InOrder(t)| :: InOrder(t)[i].0 == x
      {
        var w: int;
        if x in Keys(l) {
          var i :| 0 <= i < |sl| && sl[i].0 == x;
          assert s[i] == sl[i];
          w := i;
        } else if x == k {
          w := |sl|;
        } else {
          assert x in Keys(r);
          var i :| 0 <= i < |sr| && sr[i].0 == x;
          assert s[|sl| + 1 + i] == sr[i];
          w := |sl| + 1 + i;
        }
        assert 0 <= w < |InOrder(t)| && InOrder(t)[w].0 == x;
      }
  }

  /** The recursive ordering and the sorted in-order sequence are the same
      notion of a binary search tree. */
  lemma BstIffAscending(t: Tree)
    ensures IsBst(t) <==> Ascending(InOrder(t))
  {
    if IsBst(t) {
      BstIsAscending(t);
    }
    if Ascending(InOrder(t)) {
      AscendingIsBst(t);
    }
  }

  lemma {:induction false} BstIsAscending(t: Tree)
    requires IsBst(t)
    ensures Ascending(InOrder(t))
  {
    match t
    case Leaf =>
    case Node(l, k, v, r) =>
      BstIsAscending(l);
      BstIsAscending(r);
      KeysOfInOrder(l);
      KeysOfInOrder(r);
      var sl := InOrder(l);
      var sr := InOrder(r);
      var s := InOrder(t);
      assert s == sl + [(k, v)] + sr;
      var n := |sl|;
      forall i, j | 0 <= i < j < |s|
        ensures s[i].0 < s[j].0
      {
        if j < n {
          assert s[i] == sl[i] && s[j] == sl[j];
        } else if i > n {
          assert s[i] == sr[i - n - 1] && s[j] == sr[j - n - 1];
        } else {
          if i < n {
            assert s[i] == sl[i];
            assert s[i].0 in Keys(l);
          }
          if j > n {
            assert s[j] == sr[j - n - 1];
            assert s[j].0 in Keys(r);
          }
        }
      }
  }

  /** The pieces of an ascending sequence `sl + [p] + sr` are ascending and
      lie on either side of `p`. */
  lemma AscendingSplit(sl: seq<(int, int)>, p: (int, int), sr: seq<(int, int)>)
    requires Ascending(sl + [p] + sr)
    ensures Ascending(sl) && Ascending(sr)
    ensures forall i | 0 <= i < |sl| :: sl[i].0 < p.0
    ensures forall i | 0 <= i < |sr| :: p.0 < sr[i].0
  {
    var s := sl + [p] + sr;
    var n := |sl|;
    assert forall i | 0 <= i < n :: s[i] == sl[i];
    assert forall i | 0 <= i < |sr| :: s[n + 1 + i] == sr[i];
    assert s[n] == p;
  }

  lemma {:induction false} AscendingIsBst(t: Tree)
    requires Ascending(InOrder(t))
    ensures IsBst(t)
  {
    match t
    case Leaf =>
    case Node(l, k, v, r) =>
      var sl := InOrder(l);
      var sr := InOrder(r);
      AscendingSplit(sl, (k, v), sr);
      AscendingIsBst(l);
      AscendingIsBst(r);
      KeysOfInOrder(l);
      KeysOfInOrder(r);
      forall x | x in Keys(l)
        ensures x < k
      {
        var i :| 0 <= i < |sl| && sl[i].0 == x;
      }
      forall x | x in Keys(r)
        ensures k < x
      {
        var i :| 0 <= i < |sr| && sr[i].0 == x;
      }
  }

  /** Right rotation about `x`: its left child becomes the root, and that
      child's right subtree moves over to become `x`'s left subtree. */
  function RightRotate(x: Tree): (r: Tree)
    requires x.Node? && x.left.Node?
    ensures InOrder(r) == InOrder(x)
    ensures Keys(r) == Keys(x)
    ensures r.Node? && r.right.Node? && r.key == x.left.key && r.right.key == x.key
  {
    var y := x.left;
    Node(y.left, y.key, y.value, Node(y.right, x.key, x.value, x.right))
  }

  /** Left rotation about `x`, the mirror image of `RightRotate`. */
  function LeftRotate(x: Tree): (r: Tree)
    requires x.Node? && x.right.Node?
    ensures InOrder(r) == InOrder(x)
    ensures Keys(r) == Keys(x)
    ensures r.Node? && r.left.Node? && r.key == x.right.key && r.left.key == x.key
  {
    var y := x.right;
    Node(Node(x.left, x.key, x.value, y.left), y.key, y.value, y.right)
  }

  /** The two rotations undo each other. */
  lemma RotationsAreInverse(x: Tree)
    ensures x.Node? && x.left.Node? ==> LeftRotate(RightRotate(x)) == x
    ensures x.Node? && x.right.Node? ==> RightRotate(LeftRotate(x)) == x
  {
  }

  /** Splay `key` towards the root. The result holds the same (key, value)
      pairs in the same in-order sequence and is empty exactly when `t` is. */
  function Splay(t: Tree, key: int): (r: Tree)
    ensures InOrder(r) == InOrder(t)
    ensures Keys(r) == Keys(t)
    ensures r.Leaf? <==> t.Leaf?
  {
    if t.Leaf? || t.key == key then t
    else if key < t.key then
      if t.left.Leaf? then t
      else
        var l := t.left;
        var t1 :=
          if key < l.key then
            // zig-zig: splay the left-left grandchild, then rotate at the root
            RightRotate(Node(Node(Splay(l.left, key), l.key, l.value, l.right), t.key, t.value, t.right))
          else if key > l.key then
            // zig-zag: splay the left-right grandchild and lift it over the child
            var lr := Splay(l.right, key);
            var l1 := Node(l.left, l.key, l.value, lr);
            Node(if lr.Node? then LeftRotate(l1) else l1, t.key, t.value, t.right)
          else t;
        assert InOrder(t1) == InOrder(t);
        assert Keys(t1) == Keys(t);
        if t1.left.Leaf? then t1 else RightRotate(t1)
    else
      if t.right.Leaf? then t
      else
        var r := t.right;
        var t1 :=
          if key > r.key then
            // zig-zig: splay the right-right grandchild, then rotate at the root
            LeftRotate(Node(t.left, t.key, t.value, Node(r.left, r.key, r.value, Splay(r.right, key))))
          else if key < r.key then
            // zig-zag: splay the right-left grandchild and lift it over the child
            var rl := Splay(r.left, key);
            var r1 := Node(rl, r.key, r.value, r.right);
            Node(t.left, t.key, t.value, if rl.Node? then RightRotate(r1) else r1)
          else t;
        assert InOrder(t1) == InOrder(t);
        assert Keys(t1) == Keys(t);
        if t1.right.Leaf? then t1 else LeftRotate(t1)
  }

  /** No key of `ks` lies strictly between `a` and `b`. */
  predicate NoKeyBetween(ks: set<int>, a: int, b: int)
  {
    forall x | x in ks :: !(a < x < b) && !(b < x < a)
  }

  /** Unfolds the definitions at a node of a binary search tree. */
  lemma NodeFacts(t: Tree)
    requires IsBst(t) && t.Node?
    ensures InOrder(t) == InOrder(t.left) + [(t.key, t.value)] + InOrder(t.right)
    ensures Keys(t) == Keys(t.left) + {t.key} + Keys(t.right)
    ensures IsBst(t.left) && IsBst(t.right)
    ensures forall x | x in Keys(t.left) :: x < t.key
    ensures forall x | x in Keys(t.right) :: t.key < x
  {
  }

  /** Splaying a non-empty binary search tree for `key` brings `key` to the
      root when it is present; when it is absent, the new root is the last
      node on the search path, an in-order neighbour of `key`: no key of the
      tree lies between the two. */
  lemma {:induction false} SplayRoot(t: Tree, key: int)
    requires IsBst(t) && t.Node?
    ensures Splay(t, key).Node?
    ensures key in Keys(t) ==> Splay(t, key).key == key
    ensures NoKeyBetween(Keys(t), key, Splay(t, key).key)
    decreases t, 1
  {
    if t.key == key {
    } else if key < t.key {
      if t.left.Leaf? || t.left.key == key {
        ZigLeft(t, key);
      } else if key < t.left.key {
        ZigZigLeft(t, key);
      } else {
        ZigZagLeft(t, key);
      }
    } else {
      if t.right.Leaf? || t.right.key == key {
        ZigRight(t, key);
      } else if key > t.right.key {
        ZigZigRight(t, key);
      } else {
        ZigZagRight(t, key);
      }
    }
  }

  /** Below the root, the search stops at the left child: either there is
      none, or it holds `key` and a single rotation lifts it. */
  lemma ZigLeft(t: Tree, key: int)
    requires IsBst(t) && t.Node? && key < t.key
    requires t.left.Leaf? || t.left.key == key
    ensures Splay(t, key).Node?
    ensures key in Keys(t) ==> Splay(t, key).key == key
    ensures NoKeyBetween(Keys(t), key, Splay(t, key).key)
  {
    NodeFacts(t);
    if t.left.Node? {
      assert Splay(t, key) == RightRotate(t);
    }
  }

  /** Zig-zig on the left: `key` is below the left child's key. */
  lemma {:induction false} ZigZigLeft(t: Tree, key: int)
    requires IsBst(t) && t.Node? && t.left.Node? && key < t.left.key
    ensures Splay(t, key).Node?
    ensures key in Keys(t) ==> Splay(t, key).key == key
    ensures NoKeyBetween(Keys(t), key, Splay(t, key).key)
    decreases t, 0
  {
    var s := Splay(t, key);
    var l := t.left;
    NodeFacts(t);
    NodeFacts(l);
    var ll := Splay(l.left, key);
    var t1 := RightRotate(Node(Node(ll, l.key, l.value, l.right), t.key, t.value, t.right));
    assert key in Keys(t) ==> key in Keys(l.left);
    assert forall x | x in Keys(t) && x !in Keys(l.left) :: l.key <= x;
    if l.left.Node? {
      SplayRoot(l.left, key);
      assert s == RightRotate(t1);
      assert s.key == ll.key && ll.key in Keys(l.left);
    } else {
      assert s == t1;
    }
  }

  /** Zig-zag on the left: `key` lies between the left child's key and the
      root key. */
  lemma {:induction false} ZigZagLeft(t: Tree, key: int)
    requires IsBst(t) && t.Node? && t.left.Node? && t.left.key < key < t.key
    ensures Splay(t, key).Node?
    ensures key in Keys(t) ==> Splay(t, key).key == key
    ensures NoKeyBetween(Keys(t), key, Splay(t, key).key)
    decreases t, 0
  {
    var s := Splay(t, key);
    var l := t.left;
    NodeFacts(t);
    NodeFacts(l);
    var lr := Splay(l.right, key);
    var l1 := Node(l.left, l.key, l.value, lr);
    assert key in Keys(t) ==> key in Keys(l.right);
    assert forall x | x in Keys(t) && x !in Keys(l.right) :: x <= l.key || t.key <= x;
    if l.right.Node? {
      SplayRoot(l.right, key);
      assert s == RightRotate(Node(LeftRotate(l1), t.key, t.value, t.right));
      assert s.key == lr.key && lr.key in Keys(l.right);
    } else {
      assert s == RightRotate(Node(l1, t.key, t.value, t.right));
    }
  }

  /** The mirror image of `ZigLeft`. */
  lemma ZigRight(t: Tree, key: int)
    requires IsBst(t) && t.Node? && key > t.key
    requires t.right.Leaf? || t.right.key == key
    ensures Splay(t, key).Node?
    ensures key in Keys(t) ==> Splay(t, key).key == key
    ensures NoKeyBetween(Keys(t), key, Splay(t, key).key)
  {
    NodeFacts(t);
    if t.right.Node? {
      assert Splay(t, key) == LeftRotate(t);
    }
  }

  /** Zig-zig on the right: `key` is above the right child's key. */
  lemma {:induction false} ZigZigRight(t: Tree, key: int)
    requires IsBst(t) && t.Node? && t.right.Node? && key > t.right.key
    ensures Splay(t, key).Node?
    ensures key in Keys(t) ==> Splay(t, key).key == key
    ensures NoKeyBetween(Keys(t), key, Splay(t, key).key)
    decreases t, 0
  {
    var s := Splay(t, key);
    var r := t.right;
    NodeFacts(t);
    NodeFacts(r);
    var rr := Splay(r.right, key);
    var t1 := LeftRotate(Node(t.left, t.key, t.value, Node(r.left, r.key, r.value, rr)));
    assert key in Keys(t) ==> key in Keys(r.right);
    assert forall x | x in Keys(t) && x !in Keys(r.right) :: x <= r.key;
    if r.right.Node? {
      SplayRoot(r.right, key);
      assert s == LeftRotate(t1);
      assert s.key == rr.key && rr.key in Keys(r.right);
    } else {
      assert s == t1;
    }
  }

  /** Zig-zag on the right: `key` lies between the root key and the right
      child's key. */
  lemma {:induction false} ZigZagRight(t: Tree, key: int)
    requires IsBst(t) && t.Node? && t.right.Node? && t.key < key < t.right.key
    ensures Splay(t, key).Node?
    ensures key in Keys(t) ==> Splay(t, key).key == key
    ensures NoKeyBetween(Keys(t), key, Splay(t, key).key)
    decreases t, 0
  {
    var s := Splay(t, key);
    var r := t.right;
    NodeFacts(t);
    NodeFacts(r);
    var rl := Splay(r.left, key);
    var r1 := Node(rl, r.key, r.value, r.right);
    assert key in Keys(t) ==> key in Keys(r.left);
    assert forall x | x in Keys(t) && x !in Keys(r.left) :: x <= t.key || r.key <= x;
    if r.left.Node? {
      SplayRoot(r.left, key);
      assert s == LeftRotate(Node(t.left, t.key, t.value, RightRotate(r1)));
      assert s.key == rl.key && rl.key in Keys(r.left);
    } else {
      assert s == LeftRotate(Node(t.left, t.key, t.value, r1));
    }
  }

  /** Splaying keeps a binary search tree one. */
  lemma SplayPreservesBst(t: Tree, key: int)
    requires IsBst(t)
    ensures IsBst(Splay(t, key))
  {
    BstIffAscending(t);
    BstIffAscending(Splay(t, key));
  }

  /** A pair sequence with the value of every pair keyed `key` set to `value`. */
  function SetValue(bs: seq<(int, int)>, key: int, value: int): (r: seq<(int, int)>)
  {
    seq(|bs|, i requires 0 <= i < |bs| => if bs[i].0 == key then (key, value) else bs[i])
  }

  /** Overwriting the value at the root of a binary search tree changes the
      value of that key and of nothing else. */
  lemma OverwriteRoot(s: Tree, value: int)
    requires IsBst(s) && s.Node?
    ensures InOrder(s.(value := value)) == SetValue(InOrder(s), s.key, value)
  {
    NodeFacts(s);
    KeysOfInOrder(s.left);
    KeysOfInOrder(s.right);
    var sl := InOrder(s.left);
    var n := |sl|;
    var before := InOrder(s);
    var after := InOrder(s.(value := value));
    forall i | 0 <= i < |before|
      ensures after[i] == SetValue(before, s.key, value)[i]
    {
      if i < n {
        assert before[i] == sl[i] == after[i];
      } else if i > n {
        assert before[i] == InOrder(s.right)[i - n - 1] == after[i];
      }
    }
  }

  /** The split of a splayed tree at a missing key (the modelled code's new
      root): `key` becomes the root, the old root goes to the side of `key` it
      belongs on and keeps its subtree on that side, and its other subtree
      becomes the other child of the new root. */
  function SplitAt(s: Tree, key: int, value: int): (r: Tree)
    requires IsBst(s) && s.Node? && key !in Keys(s)
    requires NoKeyBetween(Keys(s), key, s.key)
    ensures IsBst(r) && r.Node? && r.key == key && r.value == value
    ensures Keys(r) == Keys(s) + {key}
    ensures |InOrder(r)| == |InOrder(s)| + 1
    ensures forall b :: b in InOrder(r) <==> b in InOrder(s) || b == (key, value)
  {
    NodeFacts(s);
    assert InOrder(Node(Leaf, s.key, s.value, s.right)) == [(s.key, s.value)] + InOrder(s.right);
    assert InOrder(Node(s.left, s.key, s.value, Leaf)) == InOrder(s.left) + [(s.key, s.value)];
    assert Keys(Node(Leaf, s.key, s.value, s.right)) == {s.key} + Keys(s.right);
    assert Keys(Node(s.left, s.key, s.value, Leaf)) == Keys(s.left) + {s.key};
    if key < s.key then
      Node(s.left, key, value, Node(Leaf, s.key, s.value, s.right))
    else
      Node(Node(s.left, s.key, s.value, Leaf), key, value, s.right)
  }

  /** The non-empty binary search trees splaying leaves behind. */
  lemma SplayFacts(t: Tree, key: int)
    requires IsBst(t) && t.Node?
    ensures var s := Splay(t, key);
      && IsBst(s) && s.Node?
      && (key in Keys(t) ==> s.key == key)
      && NoKeyBetween(Keys(s), key, s.key)
  {
    SplayPreservesBst(t, key);
    SplayRoot(t, key);
  }

  /** Look `key` up, splaying it (or the last node on its search path) to the
      root. The pairs and their order do not change; a value comes back
      exactly when `key` is stored, and it is the stored value. */
  function Search(t: Tree, key: int): (r: (Tree, Option<int>))
    requires IsBst(t)
    ensures InOrder(r.0) == InOrder(t) && IsBst(r.0)
    ensures r.1.Some? <==> key in Keys(t)
    ensures r.1.Some? ==> r.0.Node? && r.0.key == key && (key, r.1.value) in InOrder(t)
  {
    SplayPreservesBst(t, key);
    var s := Splay(t, key);
    if t.Leaf? then (s, None)
    else
      SplayFacts(t, key);
      if s.key == key then (s, Some(s.value)) else (s, None)
  }

  /** Insert or overwrite `key`. The result is a binary search tree with
      `key` at the root holding `value`; an absent key adds exactly one pair,
      a present one only has its value replaced. */
  function Insert(t: Tree, key: int, value: int): (r: Tree)
    requires IsBst(t)
    ensures IsBst(r) && r.Node? && r.key == key && r.value == value
    ensures Keys(r) == Keys(t) + {key}
    ensures forall b | b in InOrder(r) :: b in InOrder(t) || b == (key, value)
    ensures key in Keys(t) ==> InOrder(r) == SetValue(InOrder(t), key, value)
    ensures key in Keys(t) ==>
              && |InOrder(r)| == |InOrder(t)|
              && forall i | 0 <= i < |InOrder(t)| :: InOrder(r)[i].0 == InOrder(t)[i].0
    ensures key !in Keys(t) ==>
              && |InOrder(r)| == |InOrder(t)| + 1
              && forall b :: b in InOrder(r) <==> b in InOrder(t) || b == (key, value)
  {
    if t.Leaf? then Node(Leaf, key, value, Leaf)
    else
      var s := Splay(t, key);
      SplayFacts(t, key);
      if s.key == key then
        OverwriteRoot(s, value);
        s.(value := value)
      else
        SplitAt(s, key, value)
  }

  /** Inserting the same pair a second time changes nothing: same pairs, same
      key sequence, same node count. */
  lemma InsertTwice(t: Tree, key: int, value: int)
    requires IsBst(t)
    ensures InOrder(Insert(Insert(t, key, value), key, value)) == InOrder(Insert(t, key, value))
  {
    var once := InOrder(Insert(t, key, value));
    KeysOfInOrder(t);
    forall i | 0 <= i < |once| && once[i].0 == key
      ensures once[i] == (key, value)
    {
      if key !in Keys(t) {
        assert once[i] in once && once[i] !in InOrder(t);
      }
    }
    assert SetValue(once, key, value) == once;
  }
}
