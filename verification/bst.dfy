/**
 * The unbalanced binary search tree of lms.py, keyed by integer serial.
 * Each node is a value; `insert` rebuilds the path it walks down.
 */
module SearchTrees {
  import opened Wrappers

  datatype Tree<V> = Leaf | Node(key: int, value: V, left: Tree<V>, right: Tree<V>)

  function Keys<V>(t: Tree<V>): set<int>
  {
    match t
    case Leaf => {}
    case Node(k, _, l, r) => Keys(l) + Keys(r) + {k}
  }

  /** Number of nodes. */
  function Size<V>(t: Tree<V>): nat
  {
    match t
    case Leaf => 0
    case Node(_, _, l, r) => Size(l) + Size(r) + 1
  }

  /** The search-tree ordering: smaller keys to the left, larger keys to the right, at every node. */
  ghost predicate IsBST<V>(t: Tree<V>)
  {
    match t
    case Leaf => true
    case Node(k, _, l, r) =>
      && (forall x :: x in Keys(l) ==> x < k)
      && (forall x :: x in Keys(r) ==> k < x)
      && IsBST(l)
      && IsBST(r)
  }

  /** The key-to-value map a search tree represents. */
  ghost function ToMap<V>(t: Tree<V>): (m: map<int, V>)
    ensures m.Keys == Keys(t)
  {
    match t
    case Leaf => map[]
    case Node(k, v, l, r) => (ToMap(l) + ToMap(r))[k := v]
  }

  /**
   * `insert` / `_insert`: descend by key comparison; attach a new node where
   * the walk falls off the tree, or overwrite the value of the node holding
   * the key.
   */
  function Insert<V>(t: Tree<V>, key: int, value: V): (r: Tree<V>)
    ensures Keys(r) == Keys(t) + {key}
    ensures IsBST(t) ==> IsBST(r)
    ensures IsBST(t) ==> ToMap(r) == ToMap(t)[key := value]
  {
    match t
    case Leaf => Node(key, value, Leaf, Leaf)
    case Node(k, v, l, rt) =>
      if key < k then
        var r := Node(k, v, Insert(l, key, value), rt);
        assert IsBST(t) ==> ToMap(r) == ToMap(t)[key := value] by {
          if IsBST(t) {
            assert key !in Keys(rt);
            LeftUpdateSwap(ToMap(l), ToMap(rt), key, value, k, v);
          }
        }
        r
      else if key > k then
        var r := Node(k, v, l, Insert(rt, key, value));
        assert IsBST(t) ==> ToMap(r) == ToMap(t)[key := value] by {
          if IsBST(t) {
            RightUpdateSwap(ToMap(l), ToMap(rt), key, value, k, v);
          }
        }
        r
      else
        Node(k, value, l, rt)
  }

  /** Updating a left-hand key that the right-hand map lacks commutes with the union and the node's own entry. */
  lemma LeftUpdateSwap<V>(ml: map<int, V>, mr: map<int, V>, key: int, value: V, k: int, v: V)
    requires key !in mr && key != k
    ensures (ml[key := value] + mr)[k := v] == ((ml + mr)[k := v])[key := value]
  {
  }

  /** Updating a right-hand key commutes with the union and the node's own entry. */
  lemma RightUpdateSwap<V>(ml: map<int, V>, mr: map<int, V>, key: int, value: V, k: int, v: V)
    requires key != k
    ensures (ml + mr[key := value])[k := v] == ((ml + mr)[k := v])[key := value]
  {
  }

  /** Inserting a present key adds no node; inserting an absent one adds exactly one. */
  lemma {:induction false} InsertSize<V>(t: Tree<V>, key: int, value: V)
    requires IsBST(t)
    ensures Size(Insert(t, key, value)) == if key in Keys(t) then Size(t) else Size(t) + 1
  {
    match t
    case Leaf =>
    case Node(k, v, l, rt) =>
      if key < k {
        InsertSize(l, key, value);
        assert key !in Keys(rt);
      } else if key > k {
        InsertSize(rt, key, value);
        assert key !in Keys(l);
      }
  }

  /** `search` / `_search`: the value stored under `key`, or None. */
  function Search<V>(t: Tree<V>, key: int): (r: Option<V>)
    ensures IsBST(t) ==> (r.Some? <==> key in ToMap(t))
    ensures IsBST(t) && key in ToMap(t) ==> r == Some(ToMap(t)[key])
  {
    match t
    case Leaf => None
    case Node(k, v, l, rt) =>
      if k == key then Some(v)
      else if key < k then Search(l, key)
      else Search(rt, key)
  }

  /** The values in ascending key order (the traversal of `_inorder_books`). */
  function InOrder<V>(t: Tree<V>): seq<V>
  {
    match t
    case Leaf => []
    case Node(_, v, l, r) => InOrder(l) + [v] + InOrder(r)
  }

  /** The keys in the same traversal order. */
  function InOrderKeys<V>(t: Tree<V>): seq<int>
  {
    match t
    case Leaf => []
    case Node(k, _, l, r) => InOrderKeys(l) + [k] + InOrderKeys(r)
  }

  ghost predicate StrictlyAscending(xs: seq<int>)
  {
    forall i, j :: 0 <= i < j < |xs| ==> xs[i] < xs[j]
  }

  /** After `insert(k, v)`, `search(k)` finds `v` and every other key finds what it found before. */
  lemma SearchAfterInsert<V>(t: Tree<V>, key: int, value: V, other: int)
    requires IsBST(t)
    ensures Search(Insert(t, key, value), key) == Some(value)
    ensures other != key ==> Search(Insert(t, key, value), other) == Search(t, other)
  {
  }

  /** Re-inserting a present key replaces its value and adds no node. */
  lemma {:induction false} ReinsertKeepsShape<V>(t: Tree<V>, key: int, value: V)
    requires IsBST(t)
    requires key in Keys(t)
    ensures Size(Insert(t, key, value)) == Size(t)
    ensures Keys(Insert(t, key, value)) == Keys(t)
    ensures ToMap(Insert(t, key, value)) == ToMap(t)[key := value]
    ensures Search(Insert(t, key, value), key) == Some(value)
  {
    InsertSize(t, key, value);
  }

  lemma {:induction false} InOrderShape<V>(t: Tree<V>)
    ensures |InOrder(t)| == |InOrderKeys(t)| == Size(t)
    ensures forall x :: x in InOrderKeys(t) <==> x in Keys(t)
  {
    match t
    case Leaf =>
    case Node(k, v, l, r) =>
      InOrderShape(l);
      InOrderShape(r);
  }

  lemma {:induction false} InOrderAscending<V>(t: Tree<V>)
    requires IsBST(t)
    ensures StrictlyAscending(InOrderKeys(t))
  {
    match t
    case Leaf =>
    case Node(k, v, l, r) =>
      InOrderAscending(l);
      InOrderAscending(r);
      InOrderShape(l);
      InOrderShape(r);
      var kl, kr := InOrderKeys(l), InOrderKeys(r);
      var ks := InOrderKeys(t);
      assert ks == kl + [k] + kr;
      forall i, j | 0 <= i < j < |ks| ensures ks[i] < ks[j] {
        if j < |kl| {
          assert ks[i] == kl[i] && ks[j] == kl[j];
        } else if j == |kl| {
          assert ks[i] == kl[i] && kl[i] in Keys(l);
        } else if i < |kl| {
          assert ks[i] == kl[i] && kl[i] in Keys(l);
          assert ks[j] == kr[j - |kl| - 1] && ks[j] in Keys(r);
        } else if i == |kl| {
          assert ks[j] == kr[j - |kl| - 1] && ks[j] in Keys(r);
        } else {
          assert ks[i] == kr[i - |kl| - 1] && ks[j] == kr[j - |kl| - 1];
        }
      }
  }

  lemma {:induction false} InOrderValues<V>(t: Tree<V>)
    requires IsBST(t)
    ensures |InOrder(t)| == |InOrderKeys(t)|
    ensures forall i :: 0 <= i < |InOrderKeys(t)| ==> Search(t, InOrderKeys(t)[i]) == Some(InOrder(t)[i])
  {
    InOrderShape(t);
    match t
    case Leaf =>
    case Node(k, v, l, r) =>
      InOrderValues(l);
      InOrderValues(r);
      InOrderShape(l);
      InOrderShape(r);
      var kl, kr := InOrderKeys(l), InOrderKeys(r);
      var ks := InOrderKeys(t);
      var vs := InOrder(t);
      assert ks == kl + [k] + kr;
      assert vs == InOrder(l) + [v] + InOrder(r);
      forall i | 0 <= i < |ks| ensures Search(t, ks[i]) == Some(vs[i]) {
        if i < |kl| {
          assert ks[i] == kl[i] && kl[i] in Keys(l);
          assert vs[i] == InOrder(l)[i];
        } else if i > |kl| {
          assert ks[i] == kr[i - |kl| - 1] && ks[i] in Keys(r);
          assert vs[i] == InOrder(r)[i - |kl| - 1];
        }
      }
  }

  /**
   * The in-order traversal lists every stored key exactly once, in strictly
   * ascending order, each paired with the value stored under it.
   */
  lemma InOrderSorted<V>(t: Tree<V>)
    requires IsBST(t)
    ensures |InOrder(t)| == |InOrderKeys(t)| == Size(t)
    ensures StrictlyAscending(InOrderKeys(t))
    ensures forall x :: x in InOrderKeys(t) <==> x in Keys(t)
    ensures forall i :: 0 <= i < |InOrderKeys(t)| ==> Search(t, InOrderKeys(t)[i]) == Some(InOrder(t)[i])
  {
    InOrderShape(t);
    InOrderAscending(t);
    InOrderValues(t);
  }
}
