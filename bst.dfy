/**
  The binary search tree over integer keys with a three-way comparison.
  Equal keys go to the left subtree, so every key in a left subtree is at most
  its node's key and every key in a right subtree is greater.  The recursive
  helpers that rewrite child links return the rebuilt subtree as a value; the
  management structure that holds the root is a class.
*/
module BinarySearchTree {
  import opened Wrappers

  datatype Tree = Leaf | Node(left: Tree, data: int, right: Tree)

  /** The integer comparator: -1, 0 or 1 as `a` is below, equal to or above `b`. */
  function Compare(a: int, b: int): (c: int)
    ensures c == -1 || c == 0 || c == 1
    ensures c == 0 <==> a == b
    ensures c < 0 <==> a < b
  {
    if a > b then 1 else if a < b then -1 else 0
  }

  /** The keys stored in the tree, with their multiplicities. */
  function Elements(t: Tree): multiset<int>
  {
    match t
    case Leaf => multiset{}
    case Node(l, d, r) => Elements(l) + multiset{d} + Elements(r)
  }

  /** The search-tree ordering: left keys at most the node's key, right keys above it. */
  ghost predicate Ordered(t: Tree)
  {
    match t
    case Leaf => true
    case Node(l, d, r) =>
      && Ordered(l) && Ordered(r)
      && (forall y :: y in Elements(l) ==> y <= d)
      && (forall y :: y in Elements(r) ==> y > d)
  }

  // ---------------------------------------------------------------------------
  // Insertion

  /** InsertHelper: descend right when the key is greater than the node's, otherwise left. */
  function InsertHelper(t: Tree, x: int): (r: Tree)
    ensures r != Leaf
    ensures Elements(r) == Elements(t) + multiset{x}
    ensures Ordered(t) ==> Ordered(r)
  {
    match t
    case Leaf => Node(Leaf, x, Leaf)
    case Node(l, d, rt) =>
      if Compare(x, d) > 0 then Node(l, d, InsertHelper(rt, x))
      else Node(InsertHelper(l, x), d, rt)
  }

  // ---------------------------------------------------------------------------
  // Search

  /** FindHelper: compare the node's key with the key sought; go left when the node's is greater. */
  function FindHelper(t: Tree, key: int): (r: Option<int>)
    ensures r.Some? ==> r.value == key && key in Elements(t)
    ensures Ordered(t) && key in Elements(t) ==> r == Some(key)
  {
    match t
    case Leaf => None
    case Node(l, d, rt) =>
      var c := Compare(d, key);
      if c == 0 then Some(d)
      else if c > 0 then FindHelper(l, key)
      else FindHelper(rt, key)
  }

  // ---------------------------------------------------------------------------
  // Height

  /** HeightHelper: the number of NODES on the longest downward path (0 for the empty tree). */
  function HeightHelper(t: Tree): (h: nat)
    ensures h == 0 <==> t == Leaf
    ensures h <= |Elements(t)|
  {
    match t
    case Leaf => 0
    case Node(l, _, r) =>
      var lh, rh := HeightHelper(l), HeightHelper(r);
      if lh >= rh then lh + 1 else rh + 1
  }

  /** The subtree reached from the root by a sequence of steps (`false` = left, `true` = right). */
  function Follow(t: Tree, path: seq<bool>): Tree
    decreases |path|
  {
    if path == [] || t == Leaf then t
    else Follow(if path[0] then t.right else t.left, path[1..])
  }

  /** A downward path that ends on a node. */
  ghost predicate IsPath(t: Tree, path: seq<bool>)
  {
    Follow(t, path) != Leaf && (path != [] ==> t != Leaf && IsPath(if path[0] then t.right else t.left, path[1..]))
  }

  /** Every downward path has fewer steps than the height: the height counts its nodes. */
  lemma {:induction false} PathShorterThanHeight(t: Tree, path: seq<bool>)
    requires IsPath(t, path)
    ensures |path| < HeightHelper(t)
    decreases |path|
  {
    if path != [] {
      PathShorterThanHeight(if path[0] then t.right else t.left, path[1..]);
    }
  }

  /** Some downward path has exactly one step fewer than the height. */
  lemma {:induction false} LongestPath(t: Tree) returns (path: seq<bool>)
    requires t != Leaf
    ensures IsPath(t, path) && |path| + 1 == HeightHelper(t)
  {
    var lh, rh := HeightHelper(t.left), HeightHelper(t.right);
    if lh == 0 && rh == 0 {
      path := [];
    } else if lh >= rh {
      var p := LongestPath(t.left);
      path := [false] + p;
      assert path[1..] == p;
    } else {
      var p := LongestPath(t.right);
      path := [true] + p;
      assert path[1..] == p;
    }
  }

  // ---------------------------------------------------------------------------
  // Removal

  /** The node GetMaxValNode stops at: follow right links while there is a right child. */
  function Rightmost(t: Tree): (m: Tree)
    ensures m == Leaf <==> t == Leaf
    ensures m != Leaf ==> m.right == Leaf && m.data in Elements(t)
    ensures m != Leaf && Ordered(t) ==> forall y :: y in Elements(t) ==> y <= m.data
  {
    if t == Leaf || t.right == Leaf then t else Rightmost(t.right)
  }

  /** GetMaxValNode: walk down the right links. */
  method GetMaxValNode(t: Tree) returns (m: Tree)
    ensures m == Rightmost(t)
  {
    m := t;
    while m != Leaf && m.right != Leaf
      invariant Rightmost(m) == Rightmost(t)
      decreases m
    {
      m := m.right;
    }
  }

  /**
    The tree after RemoveHelper: descend left on -1, right on 1; at the
    matching node, a missing child lets the other child take its place, and a
    node with two children takes the largest key of its left subtree, which
    is then removed from the left.  A missing node is left missing: this is
    the NULL test of RemoveHelper taken before the comparison (see
    RemoveReachesNull for the order as written).
  */
  function Removed(t: Tree, key: int): Tree
    requires Ordered(t)
  {
    if t == Leaf then Leaf
    else
      var c := Compare(key, t.data);
      if c == -1 then Node(Removed(t.left, key), t.data, t.right)
      else if c == 1 then Node(t.left, t.data, Removed(t.right, key))
      else if t.left == Leaf then t.right
      else if t.right == Leaf then t.left
      else
        var m := Rightmost(t.left).data;
        Node(Removed(t.left, m), m, t.right)
  }

  /** Removing a key the tree does not hold gives the tree back unchanged. */
  lemma {:induction false} RemovedAbsent(t: Tree, key: int)
    requires Ordered(t) && key !in Elements(t)
    ensures Removed(t, key) == t
  {
    match t
    case Leaf =>
    case Node(l, d, r) =>
      var c := Compare(key, d);
      if c == -1 {
        RemovedAbsent(l, key);
      } else if c == 1 {
        RemovedAbsent(r, key);
      }
  }

  /** Removal takes away exactly one occurrence of the key, and nothing when there is none. */
  lemma RemovedElements(t: Tree, key: int)
    requires Ordered(t)
    ensures Elements(Removed(t, key)) == Elements(t) - multiset{key}
  {
    if key in Elements(t) {
      RemovedPresent(t, key);
    } else {
      RemovedAbsent(t, key);
      assert Elements(t) - multiset{key} == Elements(t);
    }
  }

  lemma {:induction false} RemovedPresent(t: Tree, key: int)
    requires Ordered(t) && key in Elements(t)
    ensures Elements(Removed(t, key)) == Elements(t) - multiset{key}
  {
    KeySide(t, key);
    var c := Compare(key, t.data);
    if c == -1 {
      RemovedPresent(t.left, key);
      ReplaceLeft(t.left, Removed(t.left, key), t.data, t.right, key);
    } else if c == 1 {
      RemovedPresent(t.right, key);
      ReplaceRight(t.left, t.right, Removed(t.right, key), t.data, key);
    } else if t.left != Leaf && t.right != Leaf {
      var m := Rightmost(t.left).data;
      RemovedPresent(t.left, m);
      ReplaceRoot(t.left, Removed(t.left, m), t.data, m, t.right);
    }
  }

  /** Taking one occurrence out of the first part of a union takes it out of the union. */
  lemma TakeFromPart(a: multiset<int>, a': multiset<int>, k: int, b: multiset<int>)
    requires k in a && a' == a - multiset{k}
    ensures a' + b == (a + b) - multiset{k}
  {
    forall y ensures (a' + b)[y] == ((a + b) - multiset{k})[y] {
      if y == k {
        assert a'[y] == a[y] - 1;
      }
    }
  }

  lemma ReplaceLeft(l: Tree, l': Tree, d: int, r: Tree, key: int)
    requires key in Elements(l) && Elements(l') == Elements(l) - multiset{key}
    ensures Elements(Node(l', d, r)) == Elements(Node(l, d, r)) - multiset{key}
  {
    TakeFromPart(Elements(l), Elements(l'), key, multiset{d});
    TakeFromPart(Elements(l) + multiset{d}, Elements(l') + multiset{d}, key, Elements(r));
  }

  lemma ReplaceRight(l: Tree, r: Tree, r': Tree, d: int, key: int)
    requires key in Elements(r) && Elements(r') == Elements(r) - multiset{key}
    ensures Elements(Node(l, d, r')) == Elements(Node(l, d, r)) - multiset{key}
  {
    var rest := Elements(l) + multiset{d};
    TakeFromPart(Elements(r), Elements(r'), key, rest);
    assert Elements(r') + rest == rest + Elements(r');
    assert Elements(r) + rest == rest + Elements(r);
  }

  lemma ReplaceRoot(l: Tree, l': Tree, d: int, m: int, r: Tree)
    requires m in Elements(l) && Elements(l') == Elements(l) - multiset{m}
    ensures Elements(Node(l', m, r)) == Elements(Node(l, d, r)) - multiset{d}
  {
    var lr := Elements(l) + Elements(r);
    forall y ensures Elements(Node(l', m, r))[y] == (Elements(Node(l, d, r)) - multiset{d})[y] {
      if y == m {
        assert Elements(l')[y] == Elements(l)[y] - 1;
      }
    }
  }

  /** A left subtree that keeps its ordering and loses keys keeps the node ordered. */
  lemma ShrinkLeft(l: Tree, l': Tree, d: int, r: Tree, key: int)
    requires Ordered(Node(l, d, r)) && Ordered(l') && Elements(l') == Elements(l) - multiset{key}
    ensures Ordered(Node(l', d, r))
  {
    forall y | y in Elements(l') ensures y <= d {
      assert y in Elements(l);
    }
  }

  lemma ShrinkRight(l: Tree, d: int, r: Tree, r': Tree, key: int)
    requires Ordered(Node(l, d, r)) && Ordered(r') && Elements(r') == Elements(r) - multiset{key}
    ensures Ordered(Node(l, d, r'))
  {
    forall y | y in Elements(r') ensures y > d {
      assert y in Elements(r);
    }
  }

  /** The two-child case: a left maximum `m` can take the node's place over what is left of the left subtree. */
  lemma ShrinkToMax(l: Tree, l': Tree, d: int, m: int, r: Tree)
    requires Ordered(Node(l, d, r)) && Ordered(l') && Elements(l') == Elements(l) - multiset{m}
    requires m in Elements(l) && forall y :: y in Elements(l) ==> y <= m
    ensures Ordered(Node(l', m, r))
  {
    forall y | y in Elements(l') ensures y <= m {
      assert y in Elements(l);
    }
    assert m <= d;
  }

  /** Removal keeps the search-tree ordering. */
  lemma {:induction false} RemovedOrdered(t: Tree, key: int)
    requires Ordered(t)
    ensures Ordered(Removed(t, key))
  {
    if t == Leaf {
      return;
    }
    var l, d, r := t.left, t.data, t.right;
    var c := Compare(key, d);
    if c == -1 {
      var l' := Removed(l, key);
      assert Removed(t, key) == Node(l', d, r);
      RemovedOrdered(l, key);
      RemovedElements(l, key);
      ShrinkLeft(l, l', d, r, key);
    } else if c == 1 {
      var r' := Removed(r, key);
      assert Removed(t, key) == Node(l, d, r');
      RemovedOrdered(r, key);
      RemovedElements(r, key);
      ShrinkRight(l, d, r, r', key);
    } else if l != Leaf && r != Leaf {
      var m := Rightmost(l).data;
      var l' := Removed(l, m);
      assert Removed(t, key) == Node(l', m, r);
      RemovedOrdered(l, m);
      RemovedElements(l, m);
      ShrinkToMax(l, l', d, m, r);
    }
  }

  /**
    RemoveHelper as written calls the comparator on `node->data` before it
    tests `node` for NULL.  This says whether the descent for `key` reaches
    a missing node, where that comparison reads through a NULL pointer.
  */
  predicate RemoveReachesNull(t: Tree, key: int)
  {
    match t
    case Leaf => true
    case Node(l, d, r) =>
      var c := Compare(key, d);
      if c == -1 then RemoveReachesNull(l, key)
      else if c == 1 then RemoveReachesNull(r, key)
      else if l == Leaf || r == Leaf then false
      else RemoveReachesNull(l, Rightmost(l).data)
  }

  /** On an ordered tree, the descent reaches a NULL node exactly when the key is not there. */
  lemma {:induction false} AbsentKeyReachesNull(t: Tree, key: int)
    requires Ordered(t)
    ensures RemoveReachesNull(t, key) <==> key !in Elements(t)
  {
    match t
    case Leaf =>
    case Node(l, d, r) =>
      var c := Compare(key, d);
      if c == -1 {
        AbsentKeyReachesNull(l, key);
        assert key !in Elements(r);
      } else if c == 1 {
        AbsentKeyReachesNull(r, key);
        assert key !in Elements(l);
      } else if l != Leaf && r != Leaf {
        AbsentKeyReachesNull(l, Rightmost(l).data);
      }
  }

  /** The smallest instance: removing 4 from the one-node tree holding 3. */
  lemma RemoveAbsentFromSingleton()
    ensures RemoveReachesNull(Node(Leaf, 3, Leaf), 4)
    ensures Removed(Node(Leaf, 3, Leaf), 4) == Node(Leaf, 3, Leaf)
  {
    assert Compare(4, 3) == 1;
  }

  /** In an ordered tree a smaller key lies on the left and a greater one on the right. */
  lemma KeySide(t: Tree, key: int)
    requires Ordered(t) && key in Elements(t)
    ensures t != Leaf
    ensures key < t.data ==> key in Elements(t.left)
    ensures key > t.data ==> key in Elements(t.right)
  {
  }

  /** The two-child case: the node takes the largest key of its left subtree and keeps its right subtree. */
  lemma TwoChildRemoval(t: Tree)
    requires Ordered(t) && t != Leaf && t.left != Leaf && t.right != Leaf
    ensures var r := Removed(t, t.data);
      && r != Leaf && r.right == t.right
      && r.data in Elements(t.left)
      && (forall y :: y in Elements(t.left) ==> y <= r.data)
      && Elements(r.left) == Elements(t.left) - multiset{r.data}
  {
    RemovedPresent(t.left, Rightmost(t.left).data);
  }

  /** RemoveHelper, recursive, with GetMaxValNode's loop for the two-child case. */
  method RemoveHelper(t: Tree, key: int) returns (r: Tree)
    requires Ordered(t)
    ensures r == Removed(t, key)
    ensures Elements(r) == Elements(t) - multiset{key} && Ordered(r)
  {
    RemovedElements(t, key);
    RemovedOrdered(t, key);
    if t == Leaf {
      return Leaf;
    }
    var c := Compare(key, t.data);
    if c == -1 {
      var l := RemoveHelper(t.left, key);
      r := Node(l, t.data, t.right);
    } else if c == 1 {
      var rt := RemoveHelper(t.right, key);
      r := Node(t.left, t.data, rt);
    } else if t.left == Leaf {
      r := t.right;
    } else if t.right == Leaf {
      r := t.left;
    } else {
      var m := GetMaxValNode(t.left);
      var l := RemoveHelper(t.left, m.data);
      r := Node(l, m.data, t.right);
    }
  }

  // ---------------------------------------------------------------------------
  // Traversals

  /**
    An action called on each visited key with the keys visited before it
    (standing for whatever state the action keeps through its parameter);
    non-zero means "stop".
  */
  type Action = (seq<int>, int) -> int

  /** A traversal's return value and the keys it called the action on, in order. */
  datatype Walk = Walk(status: int, visited: seq<int>)

  /** InOrder: left subtree, node, right subtree; 1 as soon as anything fails. */
  function InOrder(t: Tree, act: Action, before: seq<int>): Walk
  {
    match t
    case Leaf => Walk(0, [])
    case Node(l, d, r) =>
      var wl := InOrder(l, act, before);
      if wl.status != 0 then Walk(1, wl.visited)
      else if act(before + wl.visited, d) != 0 then Walk(1, wl.visited + [d])
      else
        var wr := InOrder(r, act, before + wl.visited + [d]);
        Walk(wr.status, wl.visited + [d] + wr.visited)
  }

  /** PreOrder: node, left subtree, right subtree; 1 as soon as anything fails. */
  function PreOrder(t: Tree, act: Action, before: seq<int>): Walk
  {
    match t
    case Leaf => Walk(0, [])
    case Node(l, d, r) =>
      if act(before, d) != 0 then Walk(1, [d])
      else
        var wl := PreOrder(l, act, before + [d]);
        if wl.status != 0 then Walk(1, [d] + wl.visited)
        else
          var wr := PreOrder(r, act, before + [d] + wl.visited);
          Walk(wr.status, [d] + wl.visited + wr.visited)
  }

  /**
    PostOrder: left subtree, right subtree, node; 1 when a subtree fails, and
    otherwise whatever the node's own action returned.
  */
  function PostOrder(t: Tree, act: Action, before: seq<int>): Walk
  {
    match t
    case Leaf => Walk(0, [])
    case Node(l, d, r) =>
      var wl := PostOrder(l, act, before);
      if wl.status != 0 then Walk(1, wl.visited)
      else
        var wr := PostOrder(r, act, before + wl.visited);
        if wr.status != 0 then Walk(1, wl.visited + wr.visited)
        else Walk(act(before + wl.visited + wr.visited, d), wl.visited + wr.visited + [d])
  }

  /** The keys of the three visiting orders. */
  function InOrderKeys(t: Tree): seq<int>
  {
    match t
    case Leaf => []
    case Node(l, d, r) => InOrderKeys(l) + [d] + InOrderKeys(r)
  }

  function PreOrderKeys(t: Tree): seq<int>
  {
    match t
    case Leaf => []
    case Node(l, d, r) => [d] + PreOrderKeys(l) + PreOrderKeys(r)
  }

  function PostOrderKeys(t: Tree): seq<int>
  {
    match t
    case Leaf => []
    case Node(l, d, r) => PostOrderKeys(l) + PostOrderKeys(r) + [d]
  }

  /**
    The action was called on the keys of `v` in turn, after the keys of
    `before`, and returned non-zero on the last one if `failed` and on no
    other.
  */
  ghost predicate Stops(act: Action, before: seq<int>, v: seq<int>, failed: bool)
  {
    && (failed ==> |v| > 0)
    && forall i :: 0 <= i < |v| ==> (act(before + v[..i], v[i]) != 0 <==> failed && i == |v| - 1)
  }

  lemma {:induction false} StopsConcat(act: Action, before: seq<int>, a: seq<int>, b: seq<int>, failed: bool)
    requires Stops(act, before, a, false) && Stops(act, before + a, b, failed)
    ensures Stops(act, before, a + b, failed)
  {
    var v := a + b;
    forall i | 0 <= i < |v|
      ensures act(before + v[..i], v[i]) != 0 <==> failed && i == |v| - 1
    {
      if i < |a| {
        assert v[..i] == a[..i] && v[i] == a[i];
      } else {
        var j := i - |a|;
        assert before + v[..i] == (before + a) + b[..j] && v[i] == b[j];
      }
    }
  }

  lemma Assoc(a: seq<int>, b: seq<int>, c: seq<int>)
    ensures a + b + c == a + (b + c)
  {
  }

  lemma StopsOne(act: Action, before: seq<int>, d: int)
    ensures Stops(act, before, [d], act(before, d) != 0)
  {
    assert before + [d][..0] == before;
  }

  /**
    The in-order walk calls the action on a prefix of the in-order keys and
    stops right after the first failure; it returns 0 exactly after a full
    pass and 1 after a stop.
  */
  lemma {:induction false} InOrderStops(t: Tree, act: Action, before: seq<int>)
    ensures var w := InOrder(t, act, before);
      && (w.status == 0 || w.status == 1)
      && Stops(act, before, w.visited, w.status != 0)
      && w.visited <= InOrderKeys(t)
      && (w.status == 0 ==> w.visited == InOrderKeys(t))
  {
    match t
    case Leaf =>
    case Node(l, d, r) =>
      InOrderStops(l, act, before);
      var wl := InOrder(l, act, before);
      if wl.status == 0 {
        StopsOne(act, before + wl.visited, d);
        StopsConcat(act, before, wl.visited, [d], act(before + wl.visited, d) != 0);
        if act(before + wl.visited, d) == 0 {
          InOrderStops(r, act, before + wl.visited + [d]);
          var wr := InOrder(r, act, before + wl.visited + [d]);
          Assoc(before, wl.visited, [d]);
          StopsConcat(act, before, wl.visited + [d], wr.visited, wr.status != 0);
          assert InOrderKeys(t) == wl.visited + [d] + InOrderKeys(r);
        }
      }
  }

  /** The same for the pre-order walk. */
  lemma {:induction false} PreOrderStops(t: Tree, act: Action, before: seq<int>)
    ensures var w := PreOrder(t, act, before);
      && (w.status == 0 || w.status == 1)
      && Stops(act, before, w.visited, w.status != 0)
      && w.visited <= PreOrderKeys(t)
      && (w.status == 0 ==> w.visited == PreOrderKeys(t))
  {
    match t
    case Leaf =>
    case Node(l, d, r) =>
      StopsOne(act, before, d);
      if act(before, d) == 0 {
        PreOrderStops(l, act, before + [d]);
        var wl := PreOrder(l, act, before + [d]);
        StopsConcat(act, before, [d], wl.visited, wl.status != 0);
        if wl.status == 0 {
          PreOrderStops(r, act, before + [d] + wl.visited);
          var wr := PreOrder(r, act, before + [d] + wl.visited);
          Assoc(before, [d], wl.visited);
          StopsConcat(act, before, [d] + wl.visited, wr.visited, wr.status != 0);
          assert PreOrderKeys(t) == [d] + wl.visited + PreOrderKeys(r);
        } else {
          assert PreOrderKeys(t) == ([d] + PreOrderKeys(l)) + PreOrderKeys(r);
        }
      }
  }

  /** The same for the post-order walk, whose status after a full pass is the root's action result. */
  lemma {:induction false} PostOrderStops(t: Tree, act: Action, before: seq<int>)
    ensures var w := PostOrder(t, act, before);
      && Stops(act, before, w.visited, w.status != 0)
      && w.visited <= PostOrderKeys(t)
      && (w.status == 0 ==> w.visited == PostOrderKeys(t))
  {
    match t
    case Leaf =>
    case Node(l, d, r) =>
      PostOrderStops(l, act, before);
      var wl := PostOrder(l, act, before);
      if wl.status == 0 {
        PostOrderStops(r, act, before + wl.visited);
        var wr := PostOrder(r, act, before + wl.visited);
        StopsConcat(act, before, wl.visited, wr.visited, wr.status != 0);
        if wr.status == 0 {
          var a := act(before + wl.visited + wr.visited, d);
          StopsOne(act, before + (wl.visited + wr.visited), d);
          Assoc(before, wl.visited, wr.visited);
          StopsConcat(act, before, wl.visited + wr.visited, [d], a != 0);
        } else {
          assert PostOrderKeys(t) == wl.visited + (PostOrderKeys(r) + [d]);
        }
      } else {
        assert PostOrderKeys(t) == PostOrderKeys(l) + (PostOrderKeys(r) + [d]);
      }
  }

  /**
    A post-order walk that reaches the root returns the root's own action
    result unchanged, whatever non-zero value it is; a stop inside a
    subtree gives 1.
  */
  lemma {:induction false} PostOrderStatus(t: Tree, act: Action, before: seq<int>)
    requires t != Leaf
    ensures var w, wl := PostOrder(t, act, before), PostOrder(t.left, act, before);
      var wr := PostOrder(t.right, act, before + wl.visited);
      w.status == if wl.status != 0 || wr.status != 0 then 1
                  else act(before + PostOrderKeys(t.left) + PostOrderKeys(t.right), t.data)
  {
    PostOrderStops(t.left, act, before);
    var wl := PostOrder(t.left, act, before);
    if wl.status == 0 {
      PostOrderStops(t.right, act, before + wl.visited);
    }
  }

  /** The keys of each visiting order are exactly the tree's keys. */
  lemma {:induction false} OrdersHoldElements(t: Tree)
    ensures multiset(InOrderKeys(t)) == Elements(t)
    ensures multiset(PreOrderKeys(t)) == Elements(t)
    ensures multiset(PostOrderKeys(t)) == Elements(t)
  {
    InOrderHolds(t);
    PreOrderHolds(t);
    PostOrderHolds(t);
  }

  lemma {:induction false} InOrderHolds(t: Tree)
    ensures multiset(InOrderKeys(t)) == Elements(t)
  {
    match t
    case Leaf =>
    case Node(l, d, r) =>
      InOrderHolds(l);
      InOrderHolds(r);
      assert InOrderKeys(t) == InOrderKeys(l) + [d] + InOrderKeys(r);
  }

  lemma {:induction false} PreOrderHolds(t: Tree)
    ensures multiset(PreOrderKeys(t)) == Elements(t)
  {
    match t
    case Leaf =>
    case Node(l, d, r) =>
      PreOrderHolds(l);
      PreOrderHolds(r);
      assert PreOrderKeys(t) == [d] + PreOrderKeys(l) + PreOrderKeys(r);
      assert multiset{d} + Elements(l) == Elements(l) + multiset{d};
  }

  lemma {:induction false} PostOrderHolds(t: Tree)
    ensures multiset(PostOrderKeys(t)) == Elements(t)
  {
    match t
    case Leaf =>
    case Node(l, d, r) =>
      PostOrderHolds(l);
      PostOrderHolds(r);
      assert PostOrderKeys(t) == PostOrderKeys(l) + PostOrderKeys(r) + [d];
      assert Elements(r) + multiset{d} == multiset{d} + Elements(r);
  }

  ghost predicate Sorted(s: seq<int>)
  {
    forall i, j :: 0 <= i < j < |s| ==> s[i] <= s[j]
  }

  /** A sorted run, a middle key, and a sorted run above it make a sorted sequence. */
  lemma SortedJoin(a: seq<int>, d: int, b: seq<int>)
    requires Sorted(a) && Sorted(b)
    requires forall i :: 0 <= i < |a| ==> a[i] <= d
    requires forall i :: 0 <= i < |b| ==> b[i] > d
    ensures Sorted(a + [d] + b)
  {
    var s := a + [d] + b;
    forall i, j | 0 <= i < j < |s| ensures s[i] <= s[j] {
      if j < |a| {
        assert s[i] == a[i] && s[j] == a[j];
      } else if i > |a| {
        assert s[i] == b[i - |a| - 1] && s[j] == b[j - |a| - 1];
      } else if i < |a| {
        assert s[i] == a[i];
        if j > |a| { assert s[j] == b[j - |a| - 1]; }
      } else {
        assert s[i] == d;
        if j > |a| { assert s[j] == b[j - |a| - 1]; }
      }
    }
  }

  /** The in-order keys of an ordered tree are in non-decreasing order. */
  lemma {:induction false} InOrderSorted(t: Tree)
    requires Ordered(t)
    ensures Sorted(InOrderKeys(t))
  {
    match t
    case Leaf =>
    case Node(l, d, r) =>
      InOrderSorted(l);
      InOrderSorted(r);
      OrdersHoldElements(l);
      OrdersHoldElements(r);
      var sl, sr := InOrderKeys(l), InOrderKeys(r);
      forall i | 0 <= i < |sl| ensures sl[i] <= d {
        assert sl[i] in multiset(sl);
      }
      forall i | 0 <= i < |sr| ensures sr[i] > d {
        assert sr[i] in multiset(sr);
      }
      SortedJoin(sl, d, sr);
  }

  lemma NoFailure(act: Action, before: seq<int>, v: seq<int>, failed: bool)
    requires forall h, x :: act(h, x) == 0
    requires Stops(act, before, v, failed)
    ensures !failed
  {
    if |v| > 0 {
      var i := |v| - 1;
      var h, x := before + v[..i], v[i];
      assert act(h, x) == 0;
    }
  }

  /** With an action that never fails, each walk visits every key once and returns 0. */
  lemma NeverStops(t: Tree, act: Action)
    requires forall h, x :: act(h, x) == 0
    ensures InOrder(t, act, []).status == 0 && multiset(InOrder(t, act, []).visited) == Elements(t)
    ensures PreOrder(t, act, []).status == 0 && multiset(PreOrder(t, act, []).visited) == Elements(t)
    ensures PostOrder(t, act, []).status == 0 && multiset(PostOrder(t, act, []).visited) == Elements(t)
  {
    InOrderStops(t, act, []);
    NoFailure(act, [], InOrder(t, act, []).visited, InOrder(t, act, []).status != 0);
    PreOrderStops(t, act, []);
    NoFailure(act, [], PreOrder(t, act, []).visited, PreOrder(t, act, []).status != 0);
    PostOrderStops(t, act, []);
    NoFailure(act, [], PostOrder(t, act, []).visited, PostOrder(t, act, []).status != 0);
    OrdersHoldElements(t);
  }

  /** The traversal modes of BstForEach. */
  const IN_ORDER: int := 0
  const PRE_ORDER: int := 1
  const POST_ORDER: int := 2

  /**
    BstForEach's dispatch: the chosen walk's status and the keys the action
    saw (which is all an action can reflect in its parameter); -1 and no
    visit for a mode that is none of the three.
  */
  function ForEach(t: Tree, mode: int, act: Action): (w: Walk)
    ensures mode != IN_ORDER && mode != PRE_ORDER && mode != POST_ORDER ==> w == Walk(-1, [])
    ensures mode == IN_ORDER || mode == PRE_ORDER ==> w.status == 0 || w.status == 1
    ensures mode == IN_ORDER || mode == PRE_ORDER || mode == POST_ORDER ==> Stops(act, [], w.visited, w.status != 0)
    ensures mode == IN_ORDER ==> w.visited <= InOrderKeys(t)
    ensures mode == PRE_ORDER ==> w.visited <= PreOrderKeys(t)
    ensures mode == POST_ORDER ==> w.visited <= PostOrderKeys(t)
  {
    InOrderStops(t, act, []);
    PreOrderStops(t, act, []);
    PostOrderStops(t, act, []);
    if mode == IN_ORDER then InOrder(t, act, [])
    else if mode == PRE_ORDER then PreOrder(t, act, [])
    else if mode == POST_ORDER then PostOrder(t, act, [])
    else Walk(-1, [])
  }

  /** Under any of the three modes, an action that never fails sees every key once and BstForEach returns 0. */
  lemma ForEachNeverStops(t: Tree, mode: int, act: Action)
    requires mode == IN_ORDER || mode == PRE_ORDER || mode == POST_ORDER
    requires forall h, x :: act(h, x) == 0
    ensures ForEach(t, mode, act).status == 0
    ensures multiset(ForEach(t, mode, act).visited) == Elements(t)
  {
    NeverStops(t, act);
  }

  /** The action of BstSize: count the visit and go on. */
  function CountVisit(before: seq<int>, x: int): int { 0 }

  /** BstSize: the number of visits of an in-order walk whose action only counts. */
  function Size(t: Tree): (n: nat)
    ensures n == |Elements(t)|
  {
    NeverStops(t, CountVisit);
    |InOrder(t, CountVisit, []).visited|
  }

  // ---------------------------------------------------------------------------
  // The management structure

  class Bst {
    var root: Tree

    ghost predicate Valid()
      reads this
    {
      Ordered(root)
    }

    /** BstCreate. */
    constructor ()
      ensures Valid() && root == Leaf
    {
      root := Leaf;
    }

    /** BstInsert: 0, with the key added. */
    method Insert(x: int) returns (status: int)
      requires Valid()
      modifies this
      ensures Valid() && status == 0
      ensures root == InsertHelper(old(root), x)
      ensures Elements(root) == old(Elements(root)) + multiset{x}
    {
      root := InsertHelper(root, x);
      status := if root == Leaf then 1 else 0;
    }

    /** BstRemove: one occurrence of the key goes; a key the tree does not hold changes nothing. */
    method Remove(x: int)
      requires Valid()
      modifies this
      ensures Valid()
      ensures root == Removed(old(root), x)
      ensures Elements(root) == old(Elements(root)) - multiset{x}
      ensures x !in old(Elements(root)) ==> root == old(root)
    {
      if x !in Elements(root) {
        RemovedAbsent(root, x);
      }
      root := RemoveHelper(root, x);
    }

    /** BstFind: the stored key equal to `x`, or none. */
    function Find(x: int): (r: Option<int>)
      requires Valid()
      reads this
      ensures r == if x in Elements(root) then Some(x) else None
    {
      FindHelper(root, x)
    }

    /** BstIsEmpty: 1 for the empty tree and 0 otherwise. */
    function IsEmpty(): (r: int)
      reads this
      ensures r == 0 || r == 1
      ensures r == 1 <==> root == Leaf
      ensures r == 1 <==> Size(root) == 0
    {
      if root == Leaf then 1 else 0
    }

    /** BstHeight. */
    function Height(): (h: nat)
      reads this
      ensures h == 0 <==> root == Leaf
      ensures h <= Size(root)
    {
      HeightHelper(root)
    }

    /** BstSize. */
    function Count(): (n: nat)
      reads this
      ensures n == |Elements(root)|
    {
      Size(root)
    }

    /** BstForEach. */
    function ForEachNode(mode: int, act: Action): (w: Walk)
      reads this
      ensures mode != IN_ORDER && mode != PRE_ORDER && mode != POST_ORDER ==> w == Walk(-1, [])
      ensures mode == IN_ORDER || mode == PRE_ORDER ==> w.status == 0 || w.status == 1
      ensures mode == IN_ORDER || mode == PRE_ORDER || mode == POST_ORDER ==> Stops(act, [], w.visited, w.status != 0)
      ensures mode == IN_ORDER ==> w.visited <= InOrderKeys(root)
      ensures mode == PRE_ORDER ==> w.visited <= PreOrderKeys(root)
      ensures mode == POST_ORDER ==> w.visited <= PostOrderKeys(root)
    {
      ForEach(root, mode, act)
    }
  }

  /** A counting action walks every key once under any of the three modes, so the count is the size. */
  lemma CountingWalk(t: Tree, mode: int)
    requires mode == IN_ORDER || mode == PRE_ORDER || mode == POST_ORDER
    ensures ForEach(t, mode, CountVisit).status == 0
    ensures |ForEach(t, mode, CountVisit).visited| == |Elements(t)|
  {
    ForEachNeverStops(t, mode, CountVisit);
    var v := ForEach(t, mode, CountVisit).visited;
    assert |multiset(v)| == |v|;
  }

  /** The trees the test sequence passes through. */
  function Three(): Tree
  {
    Node(Node(Leaf, 2, Leaf), 3, Node(Leaf, 5, Leaf))
  }

  function Seven(): Tree
  {
    Node(Node(Node(Leaf, 1, Leaf), 2, Leaf), 3, Node(Node(Leaf, 4, Leaf), 5, Node(Node(Leaf, 6, Leaf), 9, Leaf)))
  }

  function Five(): Tree
  {
    Node(Node(Leaf, 1, Leaf), 3, Node(Node(Leaf, 4, Leaf), 5, Node(Leaf, 9, Leaf)))
  }

  function Again(): Tree
  {
    Node(Node(Node(Leaf, 2, Leaf), 3, Leaf), 3, Node(Leaf, 5, Leaf))
  }

  lemma GrowThree()
    ensures InsertHelper(InsertHelper(InsertHelper(Leaf, 3), 5), 2) == Three()
    ensures HeightHelper(Three()) == 2 && |Elements(Three())| == 3
  {
  }

  lemma GrowSeven()
    ensures InsertHelper(InsertHelper(InsertHelper(InsertHelper(Three(), 9), 4), 6), 1) == Seven()
  {
    var t1 := Node(Node(Leaf, 2, Leaf), 3, Node(Leaf, 5, Node(Leaf, 9, Leaf)));
    assert InsertHelper(Three(), 9) == t1;
    var t2 := Node(Node(Leaf, 2, Leaf), 3, Node(Node(Leaf, 4, Leaf), 5, Node(Leaf, 9, Leaf)));
    assert InsertHelper(t1, 4) == t2;
    var t3 := Node(Node(Leaf, 2, Leaf), 3, Node(Node(Leaf, 4, Leaf), 5, Node(Node(Leaf, 6, Leaf), 9, Leaf)));
    assert InsertHelper(t2, 6) == t3;
  }

  lemma SevenShape()
    ensures HeightHelper(Seven()) == 4 && |Elements(Seven())| == 7
  {
  }

  /** Removing 6, a leaf. */
  lemma CutSix()
    requires Ordered(Seven())
    ensures Removed(Seven(), 6) == Node(Node(Node(Leaf, 1, Leaf), 2, Leaf), 3, Node(Node(Leaf, 4, Leaf), 5, Node(Leaf, 9, Leaf)))
  {
  }

  /** Removing 2, a node with only a left child, which takes its place. */
  lemma CutTwo()
    requires Ordered(Node(Node(Node(Leaf, 1, Leaf), 2, Leaf), 3, Node(Node(Leaf, 4, Leaf), 5, Node(Leaf, 9, Leaf))))
    ensures Removed(Node(Node(Node(Leaf, 1, Leaf), 2, Leaf), 3, Node(Node(Leaf, 4, Leaf), 5, Node(Leaf, 9, Leaf))), 2) == Five()
  {
  }

  lemma FiveShape()
    ensures HeightHelper(Five()) == 3 && |Elements(Five())| == 5
  {
  }

  /** Removing 5, a node with two children: 4, the largest key on its left, takes its place. */
  lemma CutFive()
    requires Ordered(Five())
    ensures Removed(Five(), 5) == Node(Node(Leaf, 1, Leaf), 3, Node(Leaf, 4, Node(Leaf, 9, Leaf)))
  {
  }

  /** Removing 1, then 4 (no left child: its right child takes its place), then 9. */
  lemma CutOne()
    requires Ordered(Node(Node(Leaf, 1, Leaf), 3, Node(Leaf, 4, Node(Leaf, 9, Leaf))))
    ensures Removed(Node(Node(Leaf, 1, Leaf), 3, Node(Leaf, 4, Node(Leaf, 9, Leaf))), 1) == Node(Leaf, 3, Node(Leaf, 4, Node(Leaf, 9, Leaf)))
  {
  }

  lemma CutFour()
    requires Ordered(Node(Leaf, 3, Node(Leaf, 4, Node(Leaf, 9, Leaf))))
    ensures Removed(Node(Leaf, 3, Node(Leaf, 4, Node(Leaf, 9, Leaf))), 4) == Node(Leaf, 3, Node(Leaf, 9, Leaf))
  {
  }

  lemma CutNine()
    requires Ordered(Node(Leaf, 3, Node(Leaf, 9, Leaf)))
    ensures Removed(Node(Leaf, 3, Node(Leaf, 9, Leaf)), 9) == Node(Leaf, 3, Leaf)
  {
  }

  /** Inserting 3 next to an equal key goes left. */
  lemma GrowAgain()
    ensures InsertHelper(InsertHelper(InsertHelper(Node(Leaf, 3, Leaf), 3), 5), 2) == Again()
    ensures HeightHelper(Again()) == 3 && |Elements(Again())| == 4
  {
  }

  /**
    The integer test sequence of the tree: three inserts, four more, finds
    of present and absent keys, counting walks in each mode, removals down
    to one node, and three inserts again.  Results are, in order: the
    emptiness flag, height and size after each phase, the status and visit
    count of each counting walk, and the inserts' statuses.
  */
  method BstRun() returns (results: seq<seq<int>>, found: seq<Option<int>>)
    ensures results == [[1, 0, 0], [0, 2, 3], [4, 7, 0, 7, 0, 7, 0, 7], [0, 3, 5], [0, 1, 1, 0, 1, 0, 1, 0, 1], [0, 0, 0, 3, 4]]
    ensures found == [None, Some(3), Some(4), Some(1), None]
  {
    var b := new Bst();
    var r0 := [b.IsEmpty(), b.Height(), b.Count()];
    var f0 := b.Find(4);
    var r1 := GrowPhase(b);
    var r2, f := FullPhase(b);
    var r3 := RemovePhase(b);
    var r4 := SinglePhase(b);
    var r5 := RegrowPhase(b);
    results := [r0, r1, r2, r3, r4, r5];
    found := [f0] + f;
  }

  method GrowPhase(b: Bst) returns (r: seq<int>)
    requires b.Valid() && b.root == Leaf
    modifies b
    ensures b.Valid() && b.root == Three()
    ensures r == [0, 2, 3]
  {
    GrowThree();
    var _ := b.Insert(3);
    var _ := b.Insert(5);
    var _ := b.Insert(2);
    r := [b.IsEmpty(), b.Height(), b.Count()];
  }

  method FullPhase(b: Bst) returns (r: seq<int>, found: seq<Option<int>>)
    requires b.Valid() && b.root == Three()
    modifies b
    ensures b.Valid() && b.root == Seven()
    ensures r == [4, 7, 0, 7, 0, 7, 0, 7]
    ensures found == [Some(3), Some(4), Some(1), None]
  {
    GrowSeven();
    var _ := b.Insert(9);
    var _ := b.Insert(4);
    var _ := b.Insert(6);
    var _ := b.Insert(1);
    r, found := FullReadings(b);
  }

  method FullReadings(b: Bst) returns (r: seq<int>, found: seq<Option<int>>)
    requires b.Valid() && b.root == Seven()
    ensures r == [4, 7, 0, 7, 0, 7, 0, 7]
    ensures found == [Some(3), Some(4), Some(1), None]
  {
    SevenShape();
    found := [b.Find(3), b.Find(4), b.Find(1), b.Find(100)];
    CountingWalk(b.root, PRE_ORDER);
    CountingWalk(b.root, IN_ORDER);
    CountingWalk(b.root, POST_ORDER);
    var w0, w1, w2 := b.ForEachNode(PRE_ORDER, CountVisit), b.ForEachNode(IN_ORDER, CountVisit), b.ForEachNode(POST_ORDER, CountVisit);
    r := [b.Height(), b.Count(), w0.status, |w0.visited|, w1.status, |w1.visited|, w2.status, |w2.visited|];
  }

  method RemovePhase(b: Bst) returns (r: seq<int>)
    requires b.Valid() && b.root == Seven()
    modifies b
    ensures b.Valid() && b.root == Five()
    ensures r == [0, 3, 5]
  {
    CutSix();
    b.Remove(6);
    CutTwo();
    b.Remove(2);
    FiveShape();
    r := [b.IsEmpty(), b.Height(), b.Count()];
  }

  method SinglePhase(b: Bst) returns (r: seq<int>)
    requires b.Valid() && b.root == Five()
    modifies b
    ensures b.Valid() && b.root == Node(Leaf, 3, Leaf)
    ensures r == [0, 1, 1, 0, 1, 0, 1, 0, 1]
  {
    CutFive();
    b.Remove(5);
    CutOne();
    b.Remove(1);
    CutFour();
    b.Remove(4);
    CutNine();
    b.Remove(9);
    r := SingleReadings(b);
  }

  method SingleReadings(b: Bst) returns (r: seq<int>)
    requires b.Valid() && b.root == Node(Leaf, 3, Leaf)
    ensures r == [0, 1, 1, 0, 1, 0, 1, 0, 1]
  {
    CountingWalk(b.root, PRE_ORDER);
    CountingWalk(b.root, IN_ORDER);
    CountingWalk(b.root, POST_ORDER);
    var v0, v1, v2 := b.ForEachNode(PRE_ORDER, CountVisit), b.ForEachNode(IN_ORDER, CountVisit), b.ForEachNode(POST_ORDER, CountVisit);
    r := [b.IsEmpty(), b.Height(), b.Count(), v0.status, |v0.visited|, v1.status, |v1.visited|, v2.status, |v2.visited|];
  }

  method RegrowPhase(b: Bst) returns (r: seq<int>)
    requires b.Valid() && b.root == Node(Leaf, 3, Leaf)
    modifies b
    ensures b.Valid() && b.root == Again()
    ensures r == [0, 0, 0, 3, 4]
  {
    GrowAgain();
    var s0 := b.Insert(3);
    var s1 := b.Insert(5);
    var s2 := b.Insert(2);
    r := [s0, s1, s2, b.Height(), b.Count()];
  }
}
