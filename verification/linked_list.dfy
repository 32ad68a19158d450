/** `Linked_List` of lib/linked-list.hpp: nodes with a value and `next` and
    `previous` pointers, and a list object holding `head` and `tail`.

    The heap is a map from node addresses to nodes, and a pointer is a
    `Link`: `Null` or the address of a node.  `new Node` is given the
    address it returns, which must be unused; `delete` removes the address
    from the map.  The order of the nodes from head to tail is the
    abstraction `order`: `Valid(l, order)` says that the pointers of `l`
    chain exactly those nodes in that order, both ways. */
module LinkedList {
  import opened Wrappers

  type Ptr = nat

  datatype Link = Null | To(ptr: Ptr)

  datatype Node<T> = Node(value: T, next: Link, previous: Link)

  datatype List<T> = List(heap: map<Ptr, Node<T>>, head: Link, tail: Link)

  datatype ListError = NotFound

  /** The link to position `k` of `order`, `Null` outside it. */
  function LinkAt(order: seq<Ptr>, k: int): Link {
    if 0 <= k < |order| then To(order[k]) else Null
  }

  predicate Distinct(order: seq<Ptr>) {
    forall i, j :: 0 <= i < j < |order| ==> order[i] != order[j]
  }

  /** The node at position `k` of `order` points at its neighbours there. */
  predicate Linked<T>(heap: map<Ptr, Node<T>>, order: seq<Ptr>, k: int)
    requires 0 <= k < |order| && order[k] in heap
  {
    heap[order[k]].next == LinkAt(order, k + 1) && heap[order[k]].previous == LinkAt(order, k - 1)
  }

  /** The list invariant: the nodes are exactly those of `order`, `head`
      and `tail` name its ends (`Null` when it is empty), and every node's
      `next` and `previous` name its neighbours in `order`. */
  predicate Valid<T>(l: List<T>, order: seq<Ptr>) {
    && Distinct(order)
    && (forall p :: p in l.heap ==> p in order)
    && (forall k :: 0 <= k < |order| ==> order[k] in l.heap)
    && l.head == LinkAt(order, 0)
    && l.tail == LinkAt(order, |order| - 1)
    && (forall k :: 0 <= k < |order| ==> Linked(l.heap, order, k))
  }

  /** The values from head to tail. */
  function Values<T>(l: List<T>, order: seq<Ptr>): (r: seq<T>)
    requires Valid(l, order)
    ensures |r| == |order|
  {
    seq(|order|, (k: nat) requires k < |order| => l.heap[order[k]].value)
  }

  /** The values of a valid list are those its nodes hold, position by
      position. */
  lemma ValuesAre<T>(l: List<T>, order: seq<Ptr>, s: seq<T>)
    requires Valid(l, order) && |s| == |order|
    requires forall j :: 0 <= j < |order| ==> l.heap[order[j]].value == s[j]
    ensures Values(l, order) == s
  {
  }

  /** The position of a node in `order`. */
  function IndexOf(order: seq<Ptr>, p: Ptr): (k: nat)
    requires p in order
    ensures k < |order| && order[k] == p
  {
    if order[0] == p then 0 else 1 + IndexOf(order[1..], p)
  }

  lemma IndexOfDistinct(order: seq<Ptr>, k: nat)
    requires Distinct(order) && k < |order|
    ensures IndexOf(order, order[k]) == k
  {
  }

  /** Every link stored in a valid list is `Null` or names one of its nodes. */
  lemma LinksStayInHeap<T>(l: List<T>, order: seq<Ptr>)
    requires Valid(l, order)
    ensures l.head.To? ==> l.head.ptr in l.heap
    ensures l.tail.To? ==> l.tail.ptr in l.heap
    ensures forall q :: q in l.heap ==>
      (l.heap[q].next.To? ==> l.heap[q].next.ptr in l.heap) &&
      (l.heap[q].previous.To? ==> l.heap[q].previous.ptr in l.heap)
  {
    forall q | q in l.heap
      ensures l.heap[q].next.To? ==> l.heap[q].next.ptr in l.heap
      ensures l.heap[q].previous.To? ==> l.heap[q].previous.ptr in l.heap
    {
      var k := IndexOf(order, q);
      assert Linked(l.heap, order, k);
    }
  }

  /** The list constructor: no nodes, both ends `Null`. */
  function Create<T>(): (l: List<T>)
    ensures Valid(l, []) && Values(l, []) == []
  {
    List(map[], Null, Null)
  }

  // ---------------------------------------------------------------------
  // Splicing a node into, or out of, the order

  /** `s` with `x` inserted at position `k`. */
  function InsertAt<U>(s: seq<U>, k: nat, x: U): (r: seq<U>)
    requires k <= |s|
    ensures |r| == |s| + 1 && r[k] == x
    ensures forall j :: 0 <= j < k ==> r[j] == s[j]
    ensures forall j :: k < j < |r| ==> r[j] == s[j - 1]
  {
    s[..k] + [x] + s[k..]
  }

  /** `s` without position `k`. */
  function RemoveAt<U>(s: seq<U>, k: nat): (r: seq<U>)
    requires k < |s|
    ensures |r| == |s| - 1
    ensures forall j :: 0 <= j < k ==> r[j] == s[j]
    ensures forall j :: k <= j < |r| ==> r[j] == s[j + 1]
  {
    s[..k] + s[k + 1..]
  }

  lemma InsertAtEnd<U>(s: seq<U>, x: U)
    ensures InsertAt(s, |s|, x) == s + [x]
  {
  }

  lemma LinkAtInsert(order: seq<Ptr>, m: nat, x: Ptr, j: int)
    requires m <= |order|
    ensures LinkAt(InsertAt(order, m, x), j) ==
      if j < m then LinkAt(order, j) else if j == m then To(x) else LinkAt(order, j - 1)
  {
  }

  lemma LinkAtRemove(order: seq<Ptr>, m: nat, j: int)
    requires m < |order|
    ensures LinkAt(RemoveAt(order, m), j) == if j < m then LinkAt(order, j) else LinkAt(order, j + 1)
  {
  }

  lemma InsertAtMembers(order: seq<Ptr>, m: nat, x: Ptr)
    requires m <= |order| && Distinct(order) && x !in order
    ensures Distinct(InsertAt(order, m, x))
    ensures forall q :: q in InsertAt(order, m, x) <==> q == x || q in order
  {
    var o := InsertAt(order, m, x);
    forall q | q in order
      ensures q in o
    {
      var i :| 0 <= i < |order| && order[i] == q;
      if i < m {
        assert o[i] == q;
      } else {
        assert o[i + 1] == q;
      }
    }
  }

  lemma RemoveAtMembers(order: seq<Ptr>, m: nat)
    requires m < |order| && Distinct(order)
    ensures Distinct(RemoveAt(order, m))
    ensures forall q :: q in RemoveAt(order, m) <==> q in order && q != order[m]
  {
    var o := RemoveAt(order, m);
    forall q | q in order && q != order[m]
      ensures q in o
    {
      var i :| 0 <= i < |order| && order[i] == q;
      if i < m {
        assert o[i] == q;
      } else {
        assert o[i - 1] == q;
      }
    }
  }

  /** `r` holds the nodes of `l` plus `p`, carrying `v`, at position `m`
      of `order`; only the neighbours of that position are relinked, to
      `p`, and `head` and `tail` name the ends of the longer order. */
  ghost predicate SplicesIn<T>(l: List<T>, order: seq<Ptr>, r: List<T>, m: nat, p: Ptr, v: T)
    requires Valid(l, order) && m <= |order|
  {
    && p !in l.heap
    && r.heap.Keys == l.heap.Keys + {p}
    && r.heap[p] == Node(v, LinkAt(order, m), LinkAt(order, m - 1))
    && (forall q :: q in l.heap && LinkAt(order, m - 1) != To(q) && LinkAt(order, m) != To(q) ==>
         r.heap[q] == l.heap[q])
    && (m > 0 ==> r.heap[order[m - 1]] == l.heap[order[m - 1]].(next := To(p)))
    && (m < |order| ==> r.heap[order[m]] == l.heap[order[m]].(previous := To(p)))
    && r.head == LinkAt(InsertAt(order, m, p), 0)
    && r.tail == LinkAt(InsertAt(order, m, p), |InsertAt(order, m, p)| - 1)
  }

  /** A node before the insertion point keeps its place and its links,
      but the one right before it now points at `p`. */
  lemma SplicedInBelow<T>(l: List<T>, order: seq<Ptr>, r: List<T>, m: nat, p: Ptr, v: T, j: nat)
    requires Valid(l, order) && m <= |order| && SplicesIn(l, order, r, m, p, v) && j < m
    ensures InsertAt(order, m, p)[j] in r.heap
    ensures Linked(r.heap, InsertAt(order, m, p), j)
    ensures r.heap[InsertAt(order, m, p)[j]].value == InsertAt(Values(l, order), m, v)[j]
  {
    LinkAtInsert(order, m, p, j + 1);
    LinkAtInsert(order, m, p, j - 1);
    var q := order[j];
    assert Linked(l.heap, order, j);
    assert InsertAt(Values(l, order), m, v)[j] == Values(l, order)[j] == l.heap[q].value;
    if j + 1 < m {
      assert LinkAt(order, m - 1) != To(q) && LinkAt(order, m) != To(q);
      assert r.heap[q] == l.heap[q];
    } else {
      assert r.heap[q] == l.heap[q].(next := To(p));
    }
  }

  /** A node after the insertion point moves up one place; the one right
      after it now points back at `p`. */
  lemma SplicedInAbove<T>(l: List<T>, order: seq<Ptr>, r: List<T>, m: nat, p: Ptr, v: T, j: nat)
    requires Valid(l, order) && m <= |order| && SplicesIn(l, order, r, m, p, v) && m < j <= |order|
    ensures InsertAt(order, m, p)[j] in r.heap
    ensures Linked(r.heap, InsertAt(order, m, p), j)
    ensures r.heap[InsertAt(order, m, p)[j]].value == InsertAt(Values(l, order), m, v)[j]
  {
    var q := order[j - 1];
    assert Linked(l.heap, order, j - 1);
    if j == m + 1 {
      assert r.heap[q] == l.heap[q].(previous := To(p));
    } else {
      assert LinkAt(order, m - 1) != To(q) && LinkAt(order, m) != To(q);
      assert r.heap[q] == l.heap[q];
    }
    SplicedInAboveLinks(l, order, r, m, p, v, j);
  }

  lemma SplicedInAboveLinks<T>(l: List<T>, order: seq<Ptr>, r: List<T>, m: nat, p: Ptr, v: T, j: nat)
    requires Valid(l, order) && m <= |order| && SplicesIn(l, order, r, m, p, v) && m < j <= |order|
    requires Linked(l.heap, order, j - 1) && order[j - 1] in r.heap
    requires r.heap[order[j - 1]] == l.heap[order[j - 1]].(previous := if j == m + 1 then To(p) else l.heap[order[j - 1]].previous)
    ensures Linked(r.heap, InsertAt(order, m, p), j)
    ensures r.heap[InsertAt(order, m, p)[j]].value == InsertAt(Values(l, order), m, v)[j]
  {
    LinkAtInsert(order, m, p, j + 1);
    LinkAtInsert(order, m, p, j - 1);
    assert InsertAt(Values(l, order), m, v)[j] == Values(l, order)[j - 1];
  }

  /** The new node points at both neighbours of its position. */
  lemma SplicedInAt<T>(l: List<T>, order: seq<Ptr>, r: List<T>, m: nat, p: Ptr, v: T)
    requires Valid(l, order) && m <= |order| && SplicesIn(l, order, r, m, p, v)
    ensures InsertAt(order, m, p)[m] in r.heap
    ensures Linked(r.heap, InsertAt(order, m, p), m)
    ensures r.heap[InsertAt(order, m, p)[m]].value == InsertAt(Values(l, order), m, v)[m]
  {
    LinkAtInsert(order, m, p, m + 1);
    LinkAtInsert(order, m, p, m - 1);
  }

  /** Splicing a node in keeps the invariant, for the order with `p` at
      position `m`, and puts `v` at that position of the values. */
  lemma SplicedIn<T>(l: List<T>, order: seq<Ptr>, r: List<T>, m: nat, p: Ptr, v: T)
    requires Valid(l, order) && m <= |order| && SplicesIn(l, order, r, m, p, v)
    ensures Valid(r, InsertAt(order, m, p))
    ensures Values(r, InsertAt(order, m, p)) == InsertAt(Values(l, order), m, v)
  {
    var o := InsertAt(order, m, p);
    InsertAtMembers(order, m, p);
    forall j | 0 <= j < |o|
      ensures o[j] in r.heap && Linked(r.heap, o, j)
      ensures r.heap[o[j]].value == InsertAt(Values(l, order), m, v)[j]
    {
      if j < m {
        SplicedInBelow(l, order, r, m, p, v, j);
      } else if j == m {
        SplicedInAt(l, order, r, m, p, v);
      } else {
        SplicedInAbove(l, order, r, m, p, v, j);
      }
    }
    assert Valid(r, o);
    assert forall j :: 0 <= j < |o| ==> Values(r, o)[j] == r.heap[o[j]].value;
  }

  /** `r` holds the nodes of `l` but the one at position `m` of `order`;
      only that node's neighbours are relinked, to each other, and `head`
      and `tail` name the ends of the shorter order. */
  ghost predicate SplicesOut<T>(l: List<T>, order: seq<Ptr>, r: List<T>, m: nat)
    requires Valid(l, order) && m < |order|
  {
    && r.heap.Keys == l.heap.Keys - {order[m]}
    && (forall q :: q in r.heap && LinkAt(order, m - 1) != To(q) && LinkAt(order, m + 1) != To(q) ==>
         r.heap[q] == l.heap[q])
    && (m > 0 ==> r.heap[order[m - 1]] == l.heap[order[m - 1]].(next := LinkAt(order, m + 1)))
    && (m + 1 < |order| ==> r.heap[order[m + 1]] == l.heap[order[m + 1]].(previous := LinkAt(order, m - 1)))
    && r.head == LinkAt(RemoveAt(order, m), 0)
    && r.tail == LinkAt(RemoveAt(order, m), |RemoveAt(order, m)| - 1)
  }

  /** A node before the removed one keeps its place; the one right before
      it now points past it. */
  lemma SplicedOutBelow<T>(l: List<T>, order: seq<Ptr>, r: List<T>, m: nat, j: nat)
    requires Valid(l, order) && m < |order| && SplicesOut(l, order, r, m) && j < m
    ensures RemoveAt(order, m)[j] in r.heap
    ensures Linked(r.heap, RemoveAt(order, m), j)
    ensures r.heap[RemoveAt(order, m)[j]].value == RemoveAt(Values(l, order), m)[j]
  {
    LinkAtRemove(order, m, j + 1);
    LinkAtRemove(order, m, j - 1);
    var q := order[j];
    assert Linked(l.heap, order, j);
    assert RemoveAt(Values(l, order), m)[j] == Values(l, order)[j] == l.heap[q].value;
    if j + 1 < m {
      assert LinkAt(order, m - 1) != To(q) && LinkAt(order, m + 1) != To(q);
      assert r.heap[q] == l.heap[q];
    } else {
      assert r.heap[q] == l.heap[q].(next := LinkAt(order, m + 1));
    }
  }

  /** A node after the removed one moves down one place; the one right
      after it now points back past it. */
  lemma SplicedOutAbove<T>(l: List<T>, order: seq<Ptr>, r: List<T>, m: nat, j: nat)
    requires Valid(l, order) && m < |order| && SplicesOut(l, order, r, m) && m <= j && j + 1 < |order|
    ensures RemoveAt(order, m)[j] in r.heap
    ensures Linked(r.heap, RemoveAt(order, m), j)
    ensures r.heap[RemoveAt(order, m)[j]].value == RemoveAt(Values(l, order), m)[j]
  {
    LinkAtRemove(order, m, j + 1);
    LinkAtRemove(order, m, j - 1);
    var q := order[j + 1];
    assert Linked(l.heap, order, j + 1);
    assert RemoveAt(Values(l, order), m)[j] == Values(l, order)[j + 1] == l.heap[q].value;
    if j == m {
      assert r.heap[q] == l.heap[q].(previous := LinkAt(order, m - 1));
    } else {
      assert LinkAt(order, m - 1) != To(q) && LinkAt(order, m + 1) != To(q);
      assert r.heap[q] == l.heap[q];
    }
  }

  lemma SplicedOutCells<T>(l: List<T>, order: seq<Ptr>, r: List<T>, m: nat)
    requires Valid(l, order) && m < |order| && SplicesOut(l, order, r, m)
    ensures forall j :: 0 <= j < |order| - 1 ==>
      RemoveAt(order, m)[j] in r.heap && Linked(r.heap, RemoveAt(order, m), j) &&
      r.heap[RemoveAt(order, m)[j]].value == RemoveAt(Values(l, order), m)[j]
  {
    forall j | 0 <= j < |order| - 1
      ensures RemoveAt(order, m)[j] in r.heap && Linked(r.heap, RemoveAt(order, m), j)
      ensures r.heap[RemoveAt(order, m)[j]].value == RemoveAt(Values(l, order), m)[j]
    {
      if j < m {
        SplicedOutBelow(l, order, r, m, j);
      } else {
        SplicedOutAbove(l, order, r, m, j);
      }
    }
  }

  lemma SplicedOutValid<T>(l: List<T>, order: seq<Ptr>, r: List<T>, m: nat)
    requires Valid(l, order) && m < |order| && SplicesOut(l, order, r, m)
    ensures Valid(r, RemoveAt(order, m))
  {
    var o := RemoveAt(order, m);
    RemoveAtMembers(order, m);
    SplicedOutCells(l, order, r, m);
  }

  /** Splicing a node out keeps the invariant, for the order without
      position `m`, and drops that position from the values. */
  lemma SplicedOut<T>(l: List<T>, order: seq<Ptr>, r: List<T>, m: nat)
    requires Valid(l, order) && m < |order| && SplicesOut(l, order, r, m)
    ensures Valid(r, RemoveAt(order, m))
    ensures Values(r, RemoveAt(order, m)) == RemoveAt(Values(l, order), m)
  {
    SplicedOutValid(l, order, r, m);
    SplicedOutCells(l, order, r, m);
    ValuesAre(r, RemoveAt(order, m), RemoveAt(Values(l, order), m));
  }

  // ---------------------------------------------------------------------
  // Insertions

  /** `insert_new_head`: the new node points at the old head, which points
      back at it; an empty list gets it as its tail too. */
  function InsertNewHead<T>(l: List<T>, order: seq<Ptr>, p: Ptr, v: T): (r: List<T>)
    requires Valid(l, order) && p !in l.heap
    ensures p in r.heap && r.heap[p].value == v && r.head == To(p)
    ensures r.tail == if order == [] then To(p) else l.tail
  {
    LinksStayInHeap(l, order);
    var heap := l.heap[p := Node(v, l.head, Null)];
    var heap := if l.head.To? then heap[l.head.ptr := heap[l.head.ptr].(previous := To(p))] else heap;
    List(heap, To(p), if l.tail == Null then To(p) else l.tail)
  }

  /** `insert_new_head` puts the value in front and keeps the invariant. */
  lemma InsertNewHeadPrepends<T>(l: List<T>, order: seq<Ptr>, p: Ptr, v: T)
    requires Valid(l, order) && p !in l.heap
    ensures Valid(InsertNewHead(l, order, p, v), [p] + order)
    ensures Values(InsertNewHead(l, order, p, v), [p] + order) == [v] + Values(l, order)
  {
    assert [p] + order == InsertAt(order, 0, p);
    assert [v] + Values(l, order) == InsertAt(Values(l, order), 0, v);
    LinkAtInsert(order, 0, p, |order|);
    SplicedIn(l, order, InsertNewHead(l, order, p, v), 0, p, v);
  }

  /** `insert_new_tail`: the new node points back at the old tail, which
      points at it; an empty list gets it as its head too. */
  function InsertNewTail<T>(l: List<T>, order: seq<Ptr>, p: Ptr, v: T): (r: List<T>)
    requires Valid(l, order) && p !in l.heap
    ensures p in r.heap && r.heap[p].value == v && r.tail == To(p)
    ensures r.head == if order == [] then To(p) else l.head
  {
    LinksStayInHeap(l, order);
    var heap := l.heap[p := Node(v, Null, l.tail)];
    var heap := if l.tail.To? then heap[l.tail.ptr := heap[l.tail.ptr].(next := To(p))] else heap;
    List(heap, if l.head == Null then To(p) else l.head, To(p))
  }

  /** `insert_new_tail` puts the value at the back and keeps the invariant. */
  lemma InsertNewTailAppends<T>(l: List<T>, order: seq<Ptr>, p: Ptr, v: T)
    requires Valid(l, order) && p !in l.heap
    ensures Valid(InsertNewTail(l, order, p, v), order + [p])
    ensures Values(InsertNewTail(l, order, p, v), order + [p]) == Values(l, order) + [v]
  {
    assert order + [p] == InsertAt(order, |order|, p);
    assert Values(l, order) + [v] == InsertAt(Values(l, order), |order|, v);
    LinkAtInsert(order, |order|, p, 0);
    SplicedIn(l, order, InsertNewTail(l, order, p, v), |order|, p, v);
  }

  /** `insert_before(next, value)`: the new node sits between `next` and
      its old predecessor; the head moves only if `next` was the head. */
  function InsertBefore<T>(l: List<T>, order: seq<Ptr>, next: Ptr, p: Ptr, v: T): (r: List<T>)
    requires Valid(l, order) && next in l.heap && p !in l.heap
    ensures p in r.heap && r.heap[p].value == v && r.tail == l.tail
    ensures r.head == if l.head == To(next) then To(p) else l.head
  {
    assert Linked(l.heap, order, IndexOf(order, next));
    var n := l.heap[next];
    var heap := l.heap[p := Node(v, To(next), n.previous)];
    var heap := heap[next := n.(previous := To(p))];
    var heap := if n.previous.To? then heap[n.previous.ptr := heap[n.previous.ptr].(next := To(p))] else heap;
    List(heap, if l.head == To(next) then To(p) else l.head, l.tail)
  }

  /** `insert_before` relinks only `next` and its old predecessor. */
  lemma InsertBeforeSplicesIn<T>(l: List<T>, order: seq<Ptr>, next: Ptr, p: Ptr, v: T)
    requires Valid(l, order) && next in l.heap && p !in l.heap
    ensures SplicesIn(l, order, InsertBefore(l, order, next, p, v), IndexOf(order, next), p, v)
  {
    InsertBeforeNodes(l, order, next, p, v);
    InsertBeforeEnds(l, order, next, p, v);
  }

  lemma InsertBeforeNodes<T>(l: List<T>, order: seq<Ptr>, next: Ptr, p: Ptr, v: T)
    requires Valid(l, order) && next in l.heap && p !in l.heap
    ensures var m, r := IndexOf(order, next), InsertBefore(l, order, next, p, v);
      && r.heap.Keys == l.heap.Keys + {p}
      && r.heap[p] == Node(v, LinkAt(order, m), LinkAt(order, m - 1))
      && (forall q :: q in l.heap && LinkAt(order, m - 1) != To(q) && LinkAt(order, m) != To(q) ==>
           r.heap[q] == l.heap[q])
      && (m > 0 ==> r.heap[order[m - 1]] == l.heap[order[m - 1]].(next := To(p)))
      && (m < |order| ==> r.heap[order[m]] == l.heap[order[m]].(previous := To(p)))
  {
    var m := IndexOf(order, next);
    assert Linked(l.heap, order, m);
    if m > 0 {
      assert Linked(l.heap, order, m - 1);
      assert order[m - 1] != next;
    }
  }

  lemma InsertBeforeEnds<T>(l: List<T>, order: seq<Ptr>, next: Ptr, p: Ptr, v: T)
    requires Valid(l, order) && next in l.heap && p !in l.heap
    ensures var m, r := IndexOf(order, next), InsertBefore(l, order, next, p, v);
      && r.head == LinkAt(InsertAt(order, m, p), 0)
      && r.tail == LinkAt(InsertAt(order, m, p), |InsertAt(order, m, p)| - 1)
  {
    var m := IndexOf(order, next);
    LinkAtInsert(order, m, p, 0);
    LinkAtInsert(order, m, p, |order|);
    if m > 0 {
      assert order[0] != next;
    }
  }

  /** `insert_before` places the value right before `next` and keeps the
      invariant. */
  lemma InsertBeforePlaces<T>(l: List<T>, order: seq<Ptr>, next: Ptr, p: Ptr, v: T)
    requires Valid(l, order) && next in l.heap && p !in l.heap
    ensures Valid(InsertBefore(l, order, next, p, v), InsertAt(order, IndexOf(order, next), p))
    ensures Values(InsertBefore(l, order, next, p, v), InsertAt(order, IndexOf(order, next), p))
      == InsertAt(Values(l, order), IndexOf(order, next), v)
  {
    InsertBeforeSplicesIn(l, order, next, p, v);
    SplicedIn(l, order, InsertBefore(l, order, next, p, v), IndexOf(order, next), p, v);
  }

  /** `insert_after(previous, value)`: the new node sits between `previous`
      and its old successor; the tail moves only if `previous` was the
      tail. */
  function InsertAfter<T>(l: List<T>, order: seq<Ptr>, previous: Ptr, p: Ptr, v: T): (r: List<T>)
    requires Valid(l, order) && previous in l.heap && p !in l.heap
    ensures p in r.heap && r.heap[p].value == v && r.head == l.head
    ensures r.tail == if l.tail == To(previous) then To(p) else l.tail
  {
    assert Linked(l.heap, order, IndexOf(order, previous));
    var n := l.heap[previous];
    var heap := l.heap[p := Node(v, n.next, To(previous))];
    var heap := heap[previous := n.(next := To(p))];
    var heap := if n.next.To? then heap[n.next.ptr := heap[n.next.ptr].(previous := To(p))] else heap;
    List(heap, l.head, if l.tail == To(previous) then To(p) else l.tail)
  }

  /** `insert_after` relinks only `previous` and its old successor. */
  lemma InsertAfterSplicesIn<T>(l: List<T>, order: seq<Ptr>, previous: Ptr, p: Ptr, v: T)
    requires Valid(l, order) && previous in l.heap && p !in l.heap
    ensures SplicesIn(l, order, InsertAfter(l, order, previous, p, v), IndexOf(order, previous) + 1, p, v)
  {
    InsertAfterNodes(l, order, previous, p, v);
    InsertAfterEnds(l, order, previous, p, v);
  }

  lemma InsertAfterNodes<T>(l: List<T>, order: seq<Ptr>, previous: Ptr, p: Ptr, v: T)
    requires Valid(l, order) && previous in l.heap && p !in l.heap
    ensures var m, r := IndexOf(order, previous) + 1, InsertAfter(l, order, previous, p, v);
      && r.heap.Keys == l.heap.Keys + {p}
      && r.heap[p] == Node(v, LinkAt(order, m), LinkAt(order, m - 1))
      && (forall q :: q in l.heap && LinkAt(order, m - 1) != To(q) && LinkAt(order, m) != To(q) ==>
           r.heap[q] == l.heap[q])
      && r.heap[order[m - 1]] == l.heap[order[m - 1]].(next := To(p))
      && (m < |order| ==> r.heap[order[m]] == l.heap[order[m]].(previous := To(p)))
  {
    var m := IndexOf(order, previous) + 1;
    assert Linked(l.heap, order, m - 1);
    if m < |order| {
      assert Linked(l.heap, order, m);
      assert order[m] != previous;
    }
  }

  lemma InsertAfterEnds<T>(l: List<T>, order: seq<Ptr>, previous: Ptr, p: Ptr, v: T)
    requires Valid(l, order) && previous in l.heap && p !in l.heap
    ensures var m, r := IndexOf(order, previous) + 1, InsertAfter(l, order, previous, p, v);
      && r.head == LinkAt(InsertAt(order, m, p), 0)
      && r.tail == LinkAt(InsertAt(order, m, p), |InsertAt(order, m, p)| - 1)
  {
    var m := IndexOf(order, previous) + 1;
    LinkAtInsert(order, m, p, 0);
    LinkAtInsert(order, m, p, |order|);
    if m < |order| {
      assert order[|order| - 1] != previous;
    }
  }

  /** `insert_after` places the value right after `previous` and keeps the
      invariant. */
  lemma InsertAfterPlaces<T>(l: List<T>, order: seq<Ptr>, previous: Ptr, p: Ptr, v: T)
    requires Valid(l, order) && previous in l.heap && p !in l.heap
    ensures Valid(InsertAfter(l, order, previous, p, v), InsertAt(order, IndexOf(order, previous) + 1, p))
    ensures Values(InsertAfter(l, order, previous, p, v), InsertAt(order, IndexOf(order, previous) + 1, p))
      == InsertAt(Values(l, order), IndexOf(order, previous) + 1, v)
  {
    InsertAfterSplicesIn(l, order, previous, p, v);
    SplicedIn(l, order, InsertAfter(l, order, previous, p, v), IndexOf(order, previous) + 1, p, v);
  }

  /** `insert_after` the tail appends. */
  lemma InsertAfterTailAppends<T>(l: List<T>, order: seq<Ptr>, p: Ptr, v: T)
    requires Valid(l, order) && order != [] && p !in l.heap
    ensures order[|order| - 1] in l.heap
    ensures Valid(InsertAfter(l, order, order[|order| - 1], p, v), order + [p])
    ensures Values(InsertAfter(l, order, order[|order| - 1], p, v), order + [p]) == Values(l, order) + [v]
  {
    assert Linked(l.heap, order, |order| - 1);
    IndexOfDistinct(order, |order| - 1);
    InsertAfterAt(l, order, order[|order| - 1], p, v, |order|);
    InsertAtEnd(order, p);
    InsertAtEnd(Values(l, order), v);
  }

  /** `InsertAfterPlaces` with the position named. */
  lemma InsertAfterAt<T>(l: List<T>, order: seq<Ptr>, previous: Ptr, p: Ptr, v: T, m: nat)
    requires Valid(l, order) && previous in l.heap && p !in l.heap && m == IndexOf(order, previous) + 1
    ensures Valid(InsertAfter(l, order, previous, p, v), InsertAt(order, m, p))
    ensures Values(InsertAfter(l, order, previous, p, v), InsertAt(order, m, p)) == InsertAt(Values(l, order), m, v)
  {
    InsertAfterPlaces(l, order, previous, p, v);
  }

  // ---------------------------------------------------------------------
  // Deletion

  /** `del(node)`: the neighbours are linked to each other, `head` and
      `tail` move off the node, and the node is freed. */
  function Delete<T>(l: List<T>, order: seq<Ptr>, node: Ptr): (r: List<T>)
    requires Valid(l, order) && node in l.heap
    ensures r.heap.Keys == l.heap.Keys - {node}
  {
    assert Linked(l.heap, order, IndexOf(order, node));
    var n := l.heap[node];
    var heap := if n.previous.To? then l.heap[n.previous.ptr := l.heap[n.previous.ptr].(next := n.next)] else l.heap;
    var heap := if n.next.To? then heap[n.next.ptr := heap[n.next.ptr].(previous := n.previous)] else heap;
    List(heap - {node}, if l.head == To(node) then n.next else l.head, if l.tail == To(node) then n.previous else l.tail)
  }

  /** `del` relinks only the neighbours of the node and moves `head` and
      `tail` to the ends of the shorter order. */
  lemma DeleteSplicesOut<T>(l: List<T>, order: seq<Ptr>, node: Ptr)
    requires Valid(l, order) && node in l.heap
    ensures SplicesOut(l, order, Delete(l, order, node), IndexOf(order, node))
  {
    DeleteNodes(l, order, node);
    DeleteMovesEnds(l, order, node);
  }

  lemma DeleteNodes<T>(l: List<T>, order: seq<Ptr>, node: Ptr)
    requires Valid(l, order) && node in l.heap
    ensures var m, r := IndexOf(order, node), Delete(l, order, node);
      && (forall q :: q in r.heap && LinkAt(order, m - 1) != To(q) && LinkAt(order, m + 1) != To(q) ==>
           r.heap[q] == l.heap[q])
      && (m > 0 ==> r.heap[order[m - 1]] == l.heap[order[m - 1]].(next := LinkAt(order, m + 1)))
      && (m + 1 < |order| ==> r.heap[order[m + 1]] == l.heap[order[m + 1]].(previous := LinkAt(order, m - 1)))
  {
    var m := IndexOf(order, node);
    assert Linked(l.heap, order, m);
    DeleteKeepsOthers(l, order, node, m);
    if m > 0 && m + 1 < |order| {
      assert order[m - 1] != order[m + 1];
    }
  }

  lemma DeleteKeepsOthers<T>(l: List<T>, order: seq<Ptr>, node: Ptr, m: nat)
    requires Valid(l, order) && m < |order| && order[m] == node && Linked(l.heap, order, m)
    ensures var r := Delete(l, order, node);
      forall q :: q in r.heap && LinkAt(order, m - 1) != To(q) && LinkAt(order, m + 1) != To(q) ==>
        r.heap[q] == l.heap[q]
  {
  }

  lemma DeleteMovesEnds<T>(l: List<T>, order: seq<Ptr>, node: Ptr)
    requires Valid(l, order) && node in l.heap
    ensures Delete(l, order, node).head == LinkAt(RemoveAt(order, IndexOf(order, node)), 0)
    ensures Delete(l, order, node).tail ==
      LinkAt(RemoveAt(order, IndexOf(order, node)), |RemoveAt(order, IndexOf(order, node))| - 1)
  {
    var m := IndexOf(order, node);
    assert Linked(l.heap, order, m);
    DeleteMovesHead(l, order, node, m);
    DeleteMovesTail(l, order, node, m);
  }

  lemma DeleteMovesHead<T>(l: List<T>, order: seq<Ptr>, node: Ptr, m: nat)
    requires Valid(l, order) && m < |order| && order[m] == node && node in l.heap
    requires l.heap[node].next == LinkAt(order, m + 1)
    ensures Delete(l, order, node).head == LinkAt(RemoveAt(order, m), 0)
  {
    LinkAtRemove(order, m, 0);
    if m > 0 {
      assert order[0] != node;
    }
  }

  lemma DeleteMovesTail<T>(l: List<T>, order: seq<Ptr>, node: Ptr, m: nat)
    requires Valid(l, order) && m < |order| && order[m] == node && node in l.heap
    requires l.heap[node].previous == LinkAt(order, m - 1)
    ensures Delete(l, order, node).tail == LinkAt(RemoveAt(order, m), |order| - 2)
  {
    LinkAtRemove(order, m, |order| - 2);
    if m + 1 < |order| {
      assert order[|order| - 1] != node;
    }
  }

  /** `del` removes exactly that node, keeps the others in order and keeps
      the invariant. */
  lemma DeleteRemoves<T>(l: List<T>, order: seq<Ptr>, node: Ptr)
    requires Valid(l, order) && node in l.heap
    ensures Valid(Delete(l, order, node), RemoveAt(order, IndexOf(order, node)))
    ensures Values(Delete(l, order, node), RemoveAt(order, IndexOf(order, node)))
      == RemoveAt(Values(l, order), IndexOf(order, node))
  {
    DeleteSplicesOut(l, order, node);
    SplicedOut(l, order, Delete(l, order, node), IndexOf(order, node));
  }

  // ---------------------------------------------------------------------
  // Searches

  /** `find`: the first node from the head holding the value; throws when
      none does. */
  method Find<T(==)>(l: List<T>, order: seq<Ptr>, v: T) returns (r: Result<Ptr, ListError>)
    requires Valid(l, order)
    ensures r.Failure? <==> v !in Values(l, order)
    ensures r.Failure? ==> r.error == NotFound
    ensures r.Success? ==> r.value in l.heap && l.heap[r.value].value == v
    ensures r.Success? ==> forall j :: 0 <= j < IndexOf(order, r.value) ==> Values(l, order)[j] != v
  {
    var current := l.head;
    ghost var i := 0;
    while current != Null
      invariant 0 <= i <= |order| && current == LinkAt(order, i)
      invariant forall j :: 0 <= j < i ==> Values(l, order)[j] != v
      decreases |order| - i
    {
      assert Linked(l.heap, order, i);
      if l.heap[current.ptr].value == v {
        assert Values(l, order)[i] == v;
        IndexOfDistinct(order, i);
        return Success(current.ptr);
      }
      current := l.heap[current.ptr].next;
      i := i + 1;
    }
    return Failure(NotFound);
  }

  /** `reverse_find`: the last node holding the value, searched from the
      tail backwards; throws when none does. */
  method ReverseFind<T(==)>(l: List<T>, order: seq<Ptr>, v: T) returns (r: Result<Ptr, ListError>)
    requires Valid(l, order)
    ensures r.Failure? <==> v !in Values(l, order)
    ensures r.Failure? ==> r.error == NotFound
    ensures r.Success? ==> r.value in l.heap && l.heap[r.value].value == v
    ensures r.Success? ==> forall j :: IndexOf(order, r.value) < j < |order| ==> Values(l, order)[j] != v
  {
    var current := l.tail;
    ghost var i := |order| - 1;
    while current != Null
      invariant -1 <= i < |order| && current == LinkAt(order, i)
      invariant forall j :: i < j < |order| ==> Values(l, order)[j] != v
      decreases i + 1
    {
      assert Linked(l.heap, order, i);
      if l.heap[current.ptr].value == v {
        assert Values(l, order)[i] == v;
        IndexOfDistinct(order, i);
        return Success(current.ptr);
      }
      current := l.heap[current.ptr].previous;
      i := i - 1;
    }
    return Failure(NotFound);
  }

  // ---------------------------------------------------------------------
  // List_Iterator

  /** `List_Iterator::operator++`: follows `next` unless already at the end. */
  function Increment<T>(l: List<T>, current: Link): Link
    requires current.To? ==> current.ptr in l.heap
  {
    if current.Null? then current else l.heap[current.ptr].next
  }

  /** `List_Iterator::operator--`: follows `previous` unless already null. */
  function Decrement<T>(l: List<T>, current: Link): Link
    requires current.To? ==> current.ptr in l.heap
  {
    if current.Null? then current else l.heap[current.ptr].previous
  }

  /** On a valid list `++` moves to the next node in order and `--` to the
      previous one, both reaching `Null` past the ends; at `Null` both stay. */
  lemma StepsFollowOrder<T>(l: List<T>, order: seq<Ptr>, k: nat)
    requires Valid(l, order) && k < |order|
    ensures Increment(l, To(order[k])) == LinkAt(order, k + 1)
    ensures Decrement(l, To(order[k])) == LinkAt(order, k - 1)
    ensures Increment(l, Null) == Null && Decrement(l, Null) == Null
  {
    assert Linked(l.heap, order, k);
  }

  /** `begin()` advanced `k` times; `end()` is `Null`. */
  function Advance<T>(l: List<T>, order: seq<Ptr>, k: nat): (r: Link)
    requires Valid(l, order) && k <= |order|
    ensures r == LinkAt(order, k)
  {
    if k == 0 then l.head
    else
      assert Linked(l.heap, order, k - 1);
      Increment(l, Advance(l, order, k - 1))
  }

  /** `tail` moved back `k` times. */
  function Retreat<T>(l: List<T>, order: seq<Ptr>, k: nat): (r: Link)
    requires Valid(l, order) && k <= |order|
    ensures r == LinkAt(order, |order| - 1 - k)
  {
    if k == 0 then l.tail
    else
      assert Linked(l.heap, order, |order| - k);
      Decrement(l, Retreat(l, order, k - 1))
  }

  /** Iterating from `begin()` reads the values in order and reaches
      `end()` after exactly as many steps as there are nodes; `++` at
      `end()` stays there. */
  lemma IterationVisitsValues<T>(l: List<T>, order: seq<Ptr>)
    requires Valid(l, order)
    ensures forall k :: 0 <= k < |order| ==>
      Advance(l, order, k).To? && l.heap[Advance(l, order, k).ptr].value == Values(l, order)[k]
    ensures Advance(l, order, |order|) == Null
    ensures Increment(l, Null) == Null
  {
  }

  // ---------------------------------------------------------------------
  // The demo list

  // The list src/linked-list.cpp builds, one insertion at a time, its
  // nodes at addresses 1 to 6.

  /** `insert_new_tail(3)` on the empty list. */
  function DemoTailThree(l: List<int>): (r: List<int>)
    requires Valid(l, []) && Values(l, []) == []
    ensures Valid(r, [1]) && Values(r, [1]) == [3]
  {
    InsertNewTailAppends(l, [], 1, 3);
    assert [] + [1] == [1];
    InsertNewTail(l, [], 1, 3)
  }

  /** `insert_new_head(2)`. */
  function DemoHeadTwo(l: List<int>): (r: List<int>)
    requires Valid(l, [1]) && Values(l, [1]) == [3]
    ensures Valid(r, [2, 1]) && Values(r, [2, 1]) == [2, 3]
  {
    InsertNewHeadPrepends(l, [1], 2, 2);
    assert [2] + [1] == [2, 1];
    InsertNewHead(l, [1], 2, 2)
  }

  /** `insert_new_head(1)`. */
  function DemoHeadOne(l: List<int>): (r: List<int>)
    requires Valid(l, [2, 1]) && Values(l, [2, 1]) == [2, 3]
    ensures Valid(r, [3, 2, 1]) && Values(r, [3, 2, 1]) == [1, 2, 3]
  {
    InsertNewHeadPrepends(l, [2, 1], 3, 1);
    assert [3] + [2, 1] == [3, 2, 1];
    InsertNewHead(l, [2, 1], 3, 1)
  }

  /** `insert_after(third, 4)`, `third` being the node holding `3`. */
  function DemoAfterFour(l: List<int>): (r: List<int>)
    requires Valid(l, [3, 2, 1]) && Values(l, [3, 2, 1]) == [1, 2, 3]
    ensures Valid(r, [3, 2, 1, 4]) && Values(r, [3, 2, 1, 4]) == [1, 2, 3, 4]
  {
    InsertAfterTailAppends(l, [3, 2, 1], 4, 4);
    assert [3, 2, 1] + [4] == [3, 2, 1, 4];
    InsertAfter(l, [3, 2, 1], 1, 4, 4)
  }

  /** `insert_after(fourth, 5)`. */
  function DemoAfterFive(l: List<int>): (r: List<int>)
    requires Valid(l, [3, 2, 1, 4]) && Values(l, [3, 2, 1, 4]) == [1, 2, 3, 4]
    ensures Valid(r, [3, 2, 1, 4, 5]) && Values(r, [3, 2, 1, 4, 5]) == [1, 2, 3, 4, 5]
  {
    InsertAfterTailAppends(l, [3, 2, 1, 4], 5, 5);
    assert [3, 2, 1, 4] + [5] == [3, 2, 1, 4, 5];
    InsertAfter(l, [3, 2, 1, 4], 4, 5, 5)
  }

  /** `insert_new_tail(6)`. */
  function DemoTailSix(l: List<int>): (r: List<int>)
    requires Valid(l, [3, 2, 1, 4, 5]) && Values(l, [3, 2, 1, 4, 5]) == [1, 2, 3, 4, 5]
    ensures Valid(r, [3, 2, 1, 4, 5, 6]) && Values(r, [3, 2, 1, 4, 5, 6]) == [1, 2, 3, 4, 5, 6]
  {
    InsertNewTailAppends(l, [3, 2, 1, 4, 5], 6, 6);
    assert [3, 2, 1, 4, 5] + [6] == [3, 2, 1, 4, 5, 6];
    InsertNewTail(l, [3, 2, 1, 4, 5], 6, 6)
  }

  /** The whole sequence of insertions: the list holds 1 to 6 from head to
      tail. */
  function DemoBuild(): (l: List<int>)
    ensures Valid(l, [3, 2, 1, 4, 5, 6]) && Values(l, [3, 2, 1, 4, 5, 6]) == [1, 2, 3, 4, 5, 6]
  {
    DemoTailSix(DemoAfterFive(DemoAfterFour(DemoHeadOne(DemoHeadTwo(DemoTailThree(Create<int>()))))))
  }

  /** The demo list holds `3` and does not hold `8`, and only the node at
      address 1 holds `3`. */
  lemma DemoFinds(l: List<int>, q: Ptr)
    requires Valid(l, [3, 2, 1, 4, 5, 6]) && Values(l, [3, 2, 1, 4, 5, 6]) == [1, 2, 3, 4, 5, 6]
    ensures 3 in Values(l, [3, 2, 1, 4, 5, 6]) && 8 !in Values(l, [3, 2, 1, 4, 5, 6])
    ensures q in l.heap && l.heap[q].value == 3 ==> q == 1
  {
    var order := [3, 2, 1, 4, 5, 6];
    assert Values(l, order)[2] == 3;
    if q in l.heap && l.heap[q].value == 3 {
      var k := IndexOf(order, q);
      assert Values(l, order)[k] == 3;
    }
  }

  lemma DemoRemovals()
    ensures RemoveAt([3, 2, 1, 4, 5, 6], 2) == [3, 2, 4, 5, 6]
    ensures RemoveAt([1, 2, 3, 4, 5, 6], 2) == [1, 2, 4, 5, 6]
  {
    assert RemoveAt([3, 2, 1, 4, 5, 6], 2) == [3, 2] + [4, 5, 6];
    assert RemoveAt([1, 2, 3, 4, 5, 6], 2) == [1, 2] + [4, 5, 6];
  }

  /** `del` on the node holding `3` leaves 1, 2, 4, 5, 6. */
  function DemoDeleted(): (l: List<int>)
    ensures Valid(l, [3, 2, 4, 5, 6]) && Values(l, [3, 2, 4, 5, 6]) == [1, 2, 4, 5, 6]
  {
    var order := [3, 2, 1, 4, 5, 6];
    assert Linked(DemoBuild().heap, order, 2);
    IndexOfDistinct(order, 2);
    DeleteRemoves(DemoBuild(), order, 1);
    DemoRemovals();
    Delete(DemoBuild(), order, 1)
  }

  /** The rest of src/linked-list.cpp: `find(8)` throws, `find(3)` returns
      the node at address 1, and deleting that node leaves 1, 2, 4, 5, 6. */
  method DemoRun() returns (missing: Result<Ptr, ListError>, found: Result<Ptr, ListError>, values: seq<int>)
    ensures missing == Failure(NotFound) && found == Success(1)
    ensures values == [1, 2, 4, 5, 6]
  {
    var l, order := DemoBuild(), [3, 2, 1, 4, 5, 6];
    DemoFinds(l, 0);
    missing := Find(l, order, 8);
    found := Find(l, order, 3);
    DemoFinds(l, found.value);
    var r := Delete(l, order, found.value);
    assert r == DemoDeleted();
    values := Values(r, [3, 2, 4, 5, 6]);
  }
}
