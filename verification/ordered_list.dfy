/** `sf::static_ordered_list<K, V, Alloc>` (semifunctional/container/static_ordered_list.hpp):
    nodes live in a `static_vector` in insertion order and are threaded into a singly linked
    chain from `head` that keeps them in ascending key order.  Keys are `int` compared with
    `<` (the default `std::less`).  The chain is represented by `order`: `order[j]` is the
    storage slot of the node reached after following `next` j times from `head`, so `begin()`
    is position 0, `++` moves to the next position and `end()` (the null pointer) is position
    `|order|`. */
module OrderedList {
  import opened Wrappers
  import SV = StaticVector

  datatype Node<V> = Node(key: int, value: V)

  datatype OrderedList<V> = OrderedList(storage: SV.StaticVector<Node<V>>, order: seq<nat>)

  ghost predicate Distinct(s: seq<nat>)
  {
    forall i, j :: 0 <= i < j < |s| ==> s[i] != s[j]
  }

  ghost predicate Below(s: seq<nat>, n: nat)
  {
    forall j :: 0 <= j < |s| ==> s[j] < n
  }

  /** Every stored node is on the chain exactly once and the chain reaches nothing else. */
  ghost predicate Valid<V>(l: OrderedList<V>)
  {
    && SV.Valid(l.storage)
    && |l.order| == l.storage.size
    && Distinct(l.order)
    && Below(l.order, l.storage.size)
  }

  ghost predicate Sorted(ks: seq<int>)
  {
    forall i, j :: 0 <= i < j < |ks| ==> ks[i] <= ks[j]
  }

  function InsertAt<T>(s: seq<T>, p: nat, x: T): seq<T>
    requires p <= |s|
  {
    s[..p] + [x] + s[p..]
  }

  function RemoveAt<T>(s: seq<T>, q: nat): seq<T>
    requires q < |s|
  {
    s[..q] + s[q + 1..]
  }

  /** The stored nodes, in storage (insertion) order. */
  function Nodes<V>(l: OrderedList<V>): seq<Node<V>>
    requires Valid(l)
  {
    SV.Contents(l.storage)
  }

  /** The keys met along a chain of storage slots. */
  function KeysOf<V>(ns: seq<Node<V>>, ord: seq<nat>): (r: seq<int>)
    requires Below(ord, |ns|)
    ensures |r| == |ord|
    ensures forall j :: 0 <= j < |ord| ==> r[j] == ns[ord[j]].key
  {
    seq(|ord|, j requires 0 <= j < |ord| && Below(ord, |ns|) => ns[ord[j]].key)
  }

  /** The nodes visited from `begin()` to `end()`. */
  function Iterate<V>(l: OrderedList<V>): (r: seq<Node<V>>)
    requires Valid(l)
    ensures |r| == |l.order|
    ensures forall j :: 0 <= j < |r| ==> r[j] == Nodes(l)[l.order[j]]
  {
    seq(|l.order|, j requires 0 <= j < |l.order| && Valid(l) => Nodes(l)[l.order[j]])
  }

  function Keys<V>(l: OrderedList<V>): (r: seq<int>)
    requires Valid(l)
  {
    KeysOf(Nodes(l), l.order)
  }

  /** How far the search loop of `insert` and `update` advances: past every node whose key is
      below `k`, stopping at the first one that is not (or at the end of the chain). */
  function FirstNotLess(ks: seq<int>, k: int): (p: nat)
    ensures p <= |ks|
    ensures forall j :: 0 <= j < p ==> ks[j] < k
    ensures p < |ks| ==> k <= ks[p]
  {
    if ks == [] || !(ks[0] < k) then 0 else 1 + FirstNotLess(ks[1..], k)
  }

  /** How far the search loop for `old_key` in `update` advances: to the first node carrying it. */
  function FirstIndexOf(ks: seq<int>, k: int): (q: nat)
    requires k in ks
    ensures q < |ks| && ks[q] == k
    ensures forall j :: 0 <= j < q ==> ks[j] != k
  {
    if ks[0] == k then 0 else 1 + FirstIndexOf(ks[1..], k)
  }

  /** The list a default-constructed `static_ordered_list` starts as. */
  function Empty<V>(alloc: nat): (r: OrderedList<V>)
    ensures Valid(r) && Iterate(r) == [] && Sorted(Keys(r))
    ensures r.storage.Alloc() == alloc
  {
    OrderedList(SV.Empty(alloc), [])
  }

  /** `insert`: the node is pushed into storage and linked in front of the first node whose key
      is not below its own, so it goes before any nodes with an equal key. */
  function Insert<V>(l: OrderedList<V>, key: int, value: V): (r: (OrderedList<V>, Node<V>))
    requires Valid(l) && l.storage.size < l.storage.Alloc()
    ensures Valid(r.0) && r.0.storage.Alloc() == l.storage.Alloc()
    ensures r.1 == Node(key, value)
    ensures Nodes(r.0) == Nodes(l) + [r.1]
    ensures Iterate(r.0) == InsertAt(Iterate(l), FirstNotLess(Keys(l), key), r.1)
    ensures Sorted(Keys(l)) ==> Sorted(Keys(r.0))
  {
    var (storage, node) := SV.PushBack(l.storage, Node(key, value));
    var r := OrderedList(storage, InsertAt(l.order, FirstNotLess(Keys(l), key), l.storage.size));
    InsertLinks(l, r, FirstNotLess(Keys(l), key), node);
    (r, node)
  }

  lemma InsertLinks<V>(l: OrderedList<V>, r: OrderedList<V>, p: nat, node: Node<V>)
    requires Valid(l) && p <= |l.order| && p == FirstNotLess(Keys(l), node.key)
    requires SV.Valid(r.storage) && SV.Contents(r.storage) == Nodes(l) + [node]
    requires r.order == InsertAt(l.order, p, l.storage.size)
    ensures Valid(r)
    ensures Iterate(r) == InsertAt(Iterate(l), p, node)
    ensures Sorted(Keys(l)) ==> Sorted(Keys(r))
  {
    InsertDistinct(l.order, p, l.storage.size);
    InsertIterate(l, r, p, node);
    InsertKeys(l, r, p, node);
    if Sorted(Keys(l)) {
      InsertSorted(Keys(l), p, node.key);
    }
  }

  /** Linking in a slot the chain does not reach yet keeps every slot on it once. */
  lemma InsertDistinct(ord: seq<nat>, p: nat, n: nat)
    requires Distinct(ord) && Below(ord, n) && p <= |ord|
    ensures Distinct(InsertAt(ord, p, n)) && Below(InsertAt(ord, p, n), n + 1)
  {
    var s := InsertAt(ord, p, n);
    forall i, j | 0 <= i < j < |s| ensures s[i] != s[j] {
      assert s[i] == if i < p then ord[i] else if i == p then n else ord[i - 1];
      assert s[j] == if j < p then ord[j] else if j == p then n else ord[j - 1];
    }
  }

  lemma InsertIterate<V>(l: OrderedList<V>, r: OrderedList<V>, p: nat, node: Node<V>)
    requires Valid(l) && Valid(r) && p <= |l.order|
    requires SV.Contents(r.storage) == Nodes(l) + [node]
    requires r.order == InsertAt(l.order, p, l.storage.size)
    ensures Iterate(r) == InsertAt(Iterate(l), p, node)
  {
    forall j | 0 <= j < |r.order| ensures Iterate(r)[j] == InsertAt(Iterate(l), p, node)[j] {
      if j < p {
        assert r.order[j] == l.order[j];
      } else if j > p {
        assert r.order[j] == l.order[j - 1];
      }
    }
  }

  lemma InsertKeys<V>(l: OrderedList<V>, r: OrderedList<V>, p: nat, node: Node<V>)
    requires Valid(l) && Valid(r) && p <= |l.order|
    requires Iterate(r) == InsertAt(Iterate(l), p, node)
    ensures Keys(r) == InsertAt(Keys(l), p, node.key)
  {
    forall j | 0 <= j < |r.order| ensures Keys(r)[j] == InsertAt(Keys(l), p, node.key)[j] {
      assert Keys(r)[j] == Iterate(r)[j].key;
      if j < p {
        assert Keys(l)[j] == Iterate(l)[j].key;
      } else if j > p {
        assert Keys(l)[j - 1] == Iterate(l)[j - 1].key;
      }
    }
  }

  /** Putting `x` after everything below it and before the rest keeps a sorted sequence sorted. */
  lemma InsertSorted(ks: seq<int>, p: nat, x: int)
    requires Sorted(ks) && p <= |ks|
    requires forall j :: 0 <= j < p ==> ks[j] < x
    requires p < |ks| ==> x <= ks[p]
    ensures Sorted(InsertAt(ks, p, x))
  {
    var s := InsertAt(ks, p, x);
    forall i, j | 0 <= i < j < |s| ensures s[i] <= s[j] {
      if i < p && j == p {
      } else if i == p && j > p {
        assert s[j] == ks[j - 1] && ks[p] <= ks[j - 1];
      } else if i < p && j > p {
        assert s[j] == ks[j - 1];
      }
    }
  }

  /** `elem->next` for the node at position q: the node at the following position, or null. */
  function Successor(ord: seq<nat>, q: nat): Option<nat>
    requires q < |ord|
  {
    if q + 1 < |ord| then Some(ord[q + 1]) else None
  }

  /** `*p` for the link that leads to position p: the node there, or null past the end. */
  function Target(ord: seq<nat>, p: nat): Option<nat>
    requires p <= |ord|
  {
    if p < |ord| then Some(ord[p]) else None
  }

  /** The three link rewrites of `update`: the node at position q is unlinked and linked back in
      front of the node that was at position p (at the end when p is past the end).  When p is
      q itself the link written first is the one written last, and the chain is unchanged. */
  function Relink(ord: seq<nat>, q: nat, p: nat): seq<nat>
    requires q < |ord| && p <= |ord|
  {
    InsertAt(RemoveAt(ord, q), if p <= q then p else p - 1, ord[q])
  }

  /** `update`: finds the first node carrying `old_key` and the first position whose key is not
      below `new_key` (with the node still carrying its old key), moves the node there unless it
      is already directly in front of it, and then gives it the new key.  A missing `old_key`
      dereferences the null pointer at the end of the chain, so it is excluded. */
  function Update<V>(l: OrderedList<V>, oldKey: int, newKey: int): (r: (OrderedList<V>, Node<V>))
    requires Valid(l) && oldKey in Keys(l)
    ensures Valid(r.0) && r.0.storage.Alloc() == l.storage.Alloc()
    ensures var elem := l.order[FirstIndexOf(Keys(l), oldKey)];
      && r.1 == Node(newKey, Nodes(l)[elem].value)
      && Nodes(r.0) == Nodes(l)[elem := r.1]
      && exists p: nat :: p < |l.order| && r.0.order == InsertAt(RemoveAt(l.order, FirstIndexOf(Keys(l), oldKey)), p, elem)
    ensures multiset(r.0.order) == multiset(l.order)
    ensures Sorted(Keys(l)) ==> Sorted(Keys(r.0))
  {
    var ks := Keys(l);
    var q := FirstIndexOf(ks, oldKey);
    var p := FirstNotLess(ks, newKey);
    var elem := l.order[q];
    var order := if Successor(l.order, q) != Target(l.order, p) then Relink(l.order, q, p) else l.order;
    var node := Node(newKey, Nodes(l)[elem].value);
    var r := OrderedList(SV.Assign(l.storage, elem, node), order);
    UpdateLinks(l, r, q, p, node);
    (r, node)
  }

  lemma UpdateLinks<V>(l: OrderedList<V>, r: OrderedList<V>, q: nat, p: nat, node: Node<V>)
    requires Valid(l) && q < |l.order| && p == FirstNotLess(Keys(l), node.key)
    requires SV.Valid(r.storage) && SV.Contents(r.storage) == Nodes(l)[l.order[q] := node]
    requires r.order == if Successor(l.order, q) != Target(l.order, p) then Relink(l.order, q, p) else l.order
    ensures Valid(r)
    ensures r.order == Relink(l.order, q, p)
    ensures exists p': nat :: p' < |l.order| && r.order == InsertAt(RemoveAt(l.order, q), p', l.order[q])
    ensures multiset(r.order) == multiset(l.order)
    ensures Sorted(Keys(l)) ==> Sorted(Keys(r))
  {
    var ord := l.order;
    var p' := if p <= q then p else p - 1;
    LinksRelinked(ord, q, p);
    RelinkedValid(l, r, q, p');
    if Sorted(Keys(l)) {
      UpdateSorted(l, r, q, p', node);
    }
  }

  lemma UpdateSorted<V>(l: OrderedList<V>, r: OrderedList<V>, q: nat, p': nat, node: Node<V>)
    requires Valid(l) && Valid(r) && q < |l.order| && Sorted(Keys(l))
    requires var p := FirstNotLess(Keys(l), node.key); p' == if p <= q then p else p - 1
    requires SV.Contents(r.storage) == Nodes(l)[l.order[q] := node]
    requires r.order == InsertAt(RemoveAt(l.order, q), p', l.order[q])
    ensures Sorted(Keys(r))
  {
    UpdatePosition(Keys(l), q, node.key);
    UpdateKeys(l, r, q, p', node);
    RemoveSorted(Keys(l), q);
    InsertSorted(RemoveAt(Keys(l), q), p', node.key);
  }

  /** A relinked chain over storage of the same size is a valid list over the same nodes. */
  lemma RelinkedValid<V>(l: OrderedList<V>, r: OrderedList<V>, q: nat, p': nat)
    requires Valid(l) && q < |l.order| && p' < |l.order|
    requires SV.Valid(r.storage) && r.storage.size == l.storage.size
    requires r.order == InsertAt(RemoveAt(l.order, q), p', l.order[q])
    ensures Valid(r)
    ensures multiset(r.order) == multiset(l.order)
  {
    RelinkKeepsNodes(l.order, q, p', l.storage.size);
  }

  /** Whether or not the guard skips it, the chain ends up as the relink, at a position on the
      shortened chain. */
  lemma LinksRelinked(ord: seq<nat>, q: nat, p: nat)
    requires Distinct(ord) && q < |ord| && p <= |ord|
    ensures (if p <= q then p else p - 1) < |ord|
    ensures (if Successor(ord, q) != Target(ord, p) then Relink(ord, q, p) else ord)
            == Relink(ord, q, p)
            == InsertAt(RemoveAt(ord, q), if p <= q then p else p - 1, ord[q])
  {
    SkipIsRelink(ord, q, p);
  }

  /** The guard `elem->next != *p` only skips a relink that would change nothing. */
  lemma SkipIsRelink(ord: seq<nat>, q: nat, p: nat)
    requires Distinct(ord) && q < |ord| && p <= |ord|
    ensures Successor(ord, q) == Target(ord, p) ==> Relink(ord, q, p) == ord
  {
    if Successor(ord, q) == Target(ord, p) {
      assert p == q + 1 by {
        if p < |ord| && q + 1 < |ord| {
          assert ord[q + 1] == ord[p];
        }
      }
      RelinkInPlace(ord, q);
    }
  }

  /** Moving one node along the chain keeps every node on it exactly once. */
  lemma RelinkKeepsNodes(ord: seq<nat>, q: nat, p': nat, n: nat)
    requires Distinct(ord) && Below(ord, n) && q < |ord| && p' < |ord|
    ensures Distinct(InsertAt(RemoveAt(ord, q), p', ord[q]))
    ensures Below(InsertAt(RemoveAt(ord, q), p', ord[q]), n)
    ensures multiset(InsertAt(RemoveAt(ord, q), p', ord[q])) == multiset(ord)
  {
    RemoveDistinct(ord, q);
    InsertDistinctFresh(RemoveAt(ord, q), p', ord[q]);
    MultisetRemove(ord, q);
    MultisetInsert(RemoveAt(ord, q), p', ord[q]);
  }

  lemma MultisetRemove<T>(s: seq<T>, q: nat)
    requires q < |s|
    ensures multiset(RemoveAt(s, q)) + multiset{s[q]} == multiset(s)
  {
    assert s == s[..q] + [s[q]] + s[q + 1..];
  }

  lemma MultisetInsert<T>(s: seq<T>, p: nat, x: T)
    requires p <= |s|
    ensures multiset(InsertAt(s, p, x)) == multiset(s) + multiset{x}
  {
    assert s == s[..p] + s[p..];
  }

  /** Unlinking a node and linking it back where it was changes nothing. */
  lemma RelinkInPlace(ord: seq<nat>, q: nat)
    requires q < |ord|
    ensures Relink(ord, q, q + 1) == ord && Relink(ord, q, q) == ord
  {
    assert InsertAt(RemoveAt(ord, q), q, ord[q]) == ord;
  }

  lemma RemoveDistinct(ord: seq<nat>, q: nat)
    requires Distinct(ord) && q < |ord|
    ensures Distinct(RemoveAt(ord, q)) && ord[q] !in RemoveAt(ord, q)
    ensures forall n: nat :: Below(ord, n) ==> Below(RemoveAt(ord, q), n)
  {
    var s := RemoveAt(ord, q);
    forall i, j | 0 <= i < j < |s| ensures s[i] != s[j] {
      assert s[i] == if i < q then ord[i] else ord[i + 1];
      assert s[j] == if j < q then ord[j] else ord[j + 1];
    }
    forall j | 0 <= j < |s| ensures s[j] != ord[q] {
      assert s[j] == if j < q then ord[j] else ord[j + 1];
    }
  }

  lemma InsertDistinctFresh(s: seq<nat>, p: nat, x: nat)
    requires Distinct(s) && x !in s && p <= |s|
    ensures Distinct(InsertAt(s, p, x))
    ensures forall n: nat :: Below(s, n) && x < n ==> Below(InsertAt(s, p, x), n)
  {
    var t := InsertAt(s, p, x);
    forall i, j | 0 <= i < j < |t| ensures t[i] != t[j] {
      assert t[i] == if i < p then s[i] else if i == p then x else s[i - 1];
      assert t[j] == if j < p then s[j] else if j == p then x else s[j - 1];
    }
  }

  lemma RemoveSorted(ks: seq<int>, q: nat)
    requires Sorted(ks) && q < |ks|
    ensures Sorted(RemoveAt(ks, q))
  {
    var s := RemoveAt(ks, q);
    forall i, j | 0 <= i < j < |s| ensures s[i] <= s[j] {
      assert s[i] == if i < q then ks[i] else ks[i + 1];
      assert s[j] == if j < q then ks[j] else ks[j + 1];
    }
  }

  /** The keys after `update`: the node's old key leaves its position and the new key appears
      where the node is linked back in. */
  lemma UpdateKeys<V>(l: OrderedList<V>, r: OrderedList<V>, q: nat, p': nat, node: Node<V>)
    requires Valid(l) && Valid(r) && q < |l.order| && p' < |l.order|
    requires SV.Contents(r.storage) == Nodes(l)[l.order[q] := node]
    requires r.order == InsertAt(RemoveAt(l.order, q), p', l.order[q])
    ensures Keys(r) == InsertAt(RemoveAt(Keys(l), q), p', node.key)
  {
    RemoveDistinct(l.order, q);
    var rest := RemoveAt(l.order, q);
    var ns := Nodes(r);
    assert Below(rest, |ns|);
    KeysOfInsert(ns, rest, p', l.order[q]);
    KeysOfOther(Nodes(l), rest, l.order[q], node);
    KeysOfRemove(Nodes(l), l.order, q);
  }

  lemma KeysOfInsert<V>(ns: seq<Node<V>>, s: seq<nat>, p: nat, x: nat)
    requires Below(s, |ns|) && x < |ns| && p <= |s|
    ensures Below(InsertAt(s, p, x), |ns|)
    ensures KeysOf(ns, InsertAt(s, p, x)) == InsertAt(KeysOf(ns, s), p, ns[x].key)
  {
    var t := InsertAt(s, p, x);
    forall j | 0 <= j < |t| ensures t[j] < |ns| {
      assert t[j] == if j < p then s[j] else if j == p then x else s[j - 1];
    }
    forall j | 0 <= j < |t| ensures KeysOf(ns, t)[j] == InsertAt(KeysOf(ns, s), p, ns[x].key)[j] {
      assert t[j] == if j < p then s[j] else if j == p then x else s[j - 1];
    }
  }

  lemma KeysOfRemove<V>(ns: seq<Node<V>>, s: seq<nat>, q: nat)
    requires Below(s, |ns|) && q < |s|
    ensures Below(RemoveAt(s, q), |ns|)
    ensures KeysOf(ns, RemoveAt(s, q)) == RemoveAt(KeysOf(ns, s), q)
  {
    var t := RemoveAt(s, q);
    forall j | 0 <= j < |t| ensures t[j] == s[if j < q then j else j + 1] {
    }
  }

  /** Changing a node the chain does not reach leaves the chain's keys alone. */
  lemma KeysOfOther<V>(ns: seq<Node<V>>, s: seq<nat>, e: nat, node: Node<V>)
    requires Below(s, |ns|) && e < |ns| && e !in s
    ensures KeysOf(ns[e := node], s) == KeysOf(ns, s)
  {
    forall j | 0 <= j < |s| ensures KeysOf(ns[e := node], s)[j] == KeysOf(ns, s)[j] {
      assert s[j] != e;
    }
  }

  /** With the keys sorted, the position `update` finds for the new key, counted in the chain
      without the node, is the one `insert` would pick for that key. */
  lemma UpdatePosition(ks: seq<int>, q: nat, x: int)
    requires Sorted(ks) && q < |ks|
    ensures var p := FirstNotLess(ks, x);
      var p' := if p <= q then p else p - 1;
      && p' <= |ks| - 1
      && (forall j :: 0 <= j < p' ==> RemoveAt(ks, q)[j] < x)
      && (p' < |ks| - 1 ==> x <= RemoveAt(ks, q)[p'])
  {
    var p := FirstNotLess(ks, x);
    var p' := if p <= q then p else p - 1;
    var s := RemoveAt(ks, q);
    forall j | 0 <= j < p' ensures s[j] < x {
      assert s[j] == if j < q then ks[j] else ks[j + 1];
    }
    if p' < |s| {
      assert s[p'] == if p' < q then ks[p'] else ks[p' + 1];
      if p == q {
        assert ks[q] <= ks[q + 1];
      }
    }
  }

  /** The search loop's stopping point is the only position with everything below the key in
      front of it and nothing below the key at it. */
  lemma FirstNotLessUnique(ks: seq<int>, k: int, p: nat)
    requires p <= |ks| && (forall j :: 0 <= j < p ==> ks[j] < k) && (p < |ks| ==> k <= ks[p])
    ensures FirstNotLess(ks, k) == p
  {
  }

  /** On a sorted list, `update` does what unlinking the node and linking it back in with
      `insert`'s rule for the new key would do. */
  lemma UpdateIsReinsert<V>(l: OrderedList<V>, oldKey: int, newKey: int)
    requires Valid(l) && oldKey in Keys(l) && Sorted(Keys(l))
    ensures var q := FirstIndexOf(Keys(l), oldKey);
      var rest := RemoveAt(l.order, q);
      Below(rest, |Nodes(l)|) &&
      Update(l, oldKey, newKey).0.order == InsertAt(rest, FirstNotLess(KeysOf(Nodes(l), rest), newKey), l.order[q])
  {
    var ks := Keys(l);
    var q := FirstIndexOf(ks, oldKey);
    var p := FirstNotLess(ks, newKey);
    var rest := RemoveAt(l.order, q);
    UpdateOrder(l, oldKey, newKey);
    KeysOfRemove(Nodes(l), l.order, q);
    ReinsertPosition(ks, q, newKey);
    assert FirstNotLess(KeysOf(Nodes(l), rest), newKey) == if p <= q then p else p - 1;
  }

  /** The chain `update` leaves is the relink towards the search's stopping point. */
  lemma UpdateOrder<V>(l: OrderedList<V>, oldKey: int, newKey: int)
    requires Valid(l) && oldKey in Keys(l)
    ensures var q := FirstIndexOf(Keys(l), oldKey);
      Update(l, oldKey, newKey).0.order == Relink(l.order, q, FirstNotLess(Keys(l), newKey))
  {
    var ks := Keys(l);
    var q := FirstIndexOf(ks, oldKey);
    var p := FirstNotLess(ks, newKey);
    var r := Update(l, oldKey, newKey).0;
    assert r.order == if Successor(l.order, q) != Target(l.order, p) then Relink(l.order, q, p) else l.order;
    SkipIsRelink(l.order, q, p);
  }

  lemma ReinsertPosition(ks: seq<int>, q: nat, x: int)
    requires Sorted(ks) && q < |ks|
    ensures var p := FirstNotLess(ks, x);
      FirstNotLess(RemoveAt(ks, q), x) == if p <= q then p else p - 1
  {
    var p := FirstNotLess(ks, x);
    UpdatePosition(ks, q, x);
    FirstNotLessUnique(RemoveAt(ks, q), x, if p <= q then p else p - 1);
  }

  /** `operator[]`: the node i steps along the chain from `head`.  Walking past the end
      dereferences the null pointer, so i must be below the length. */
  function At<V>(l: OrderedList<V>, i: nat): (r: Node<V>)
    requires Valid(l) && i < |l.order|
    ensures r == Iterate(l)[i]
  {
    Nodes(l)[l.order[i]]
  }

  /** On a sorted list, indexing further along never gives a smaller key. */
  lemma AtAscending<V>(l: OrderedList<V>, i: nat, j: nat)
    requires Valid(l) && Sorted(Keys(l)) && i <= j < |l.order|
    ensures At(l, i).key <= At(l, j).key
  {
    assert At(l, i).key == Keys(l)[i] && At(l, j).key == Keys(l)[j];
  }
}
