/** The addressable binary heap of the searches (DataStructures/BinaryHeap.h).

    `heap` is the implicit tree (slot 0 is a sentinel), `insertedNodes` remembers every node
    ever inserted since the last `Clear`, and `nodeIndex` maps a node to its slot in
    `insertedNodes`. The index storage is not reset reliably: after `Clear` it may hold any
    stale values, and a lookup of a node that was never written gives an arbitrary slot.
    The client-facing view is a priority queue over maps: `keys`, `data` and `queue`. */
module BinaryHeaps {

  const MIN_WEIGHT: int := -0x8000_0000

  datatype HeapElement = HeapElement(index: nat, weight: int)
  datatype HeapNode<D> = HeapNode(node: nat, key: nat, weight: int, data: D)

  /** Every heap slot and its record in `ins` point at each other; records not in the heap have key 0. */
  ghost predicate CrossIndexed<D>(h: seq<HeapElement>, ins: seq<HeapNode<D>>) {
    && |h| >= 1
    && (forall i :: 1 <= i < |h| ==>
          h[i].index < |ins| && ins[h[i].index].key == i && ins[h[i].index].weight == h[i].weight)
    && (forall j :: 0 <= j < |ins| && ins[j].key != 0 ==>
          ins[j].key < |h| && h[ins[j].key].index == j)
  }

  ghost predicate HasSentinel(h: seq<HeapElement>) {
    |h| >= 1 && h[0].weight == MIN_WEIGHT && forall i :: 0 <= i < |h| ==> MIN_WEIGHT <= h[i].weight
  }

  function Parent(i: nat): nat { i / 2 }

  ghost predicate Ordered(h: seq<HeapElement>) {
    forall i {:trigger Parent(i)} :: 2 <= i < |h| ==> h[Parent(i)].weight <= h[i].weight
  }

  /** The children of `hole` are no lighter than its parent. */
  ghost predicate Bridged(h: seq<HeapElement>, hole: nat) {
    forall i {:trigger Parent(i)} :: 2 <= i < |h| && Parent(i) == hole && hole >= 2 ==>
      h[Parent(hole)].weight <= h[i].weight
  }

  /** Heap order, except possibly between `hole` and its parent. */
  ghost predicate OrderedExceptUp(h: seq<HeapElement>, hole: nat) {
    && Bridged(h, hole)
    && forall i {:trigger Parent(i)} :: 2 <= i < |h| && i != hole ==> h[Parent(i)].weight <= h[i].weight
  }

  /** Heap order, except possibly between `hole` and its children. */
  ghost predicate OrderedExceptDown(h: seq<HeapElement>, hole: nat) {
    && Bridged(h, hole)
    && forall i {:trigger Parent(i)} :: 2 <= i < |h| && Parent(i) != hole ==> h[Parent(i)].weight <= h[i].weight
  }

  /** Sifting only moves keys around: nodes, weights and payloads of all records stay. */
  ghost predicate SameRecords<D>(a: seq<HeapNode<D>>, b: seq<HeapNode<D>>) {
    && |a| == |b|
    && forall j :: 0 <= j < |a| ==>
         a[j].node == b[j].node && a[j].weight == b[j].weight && a[j].data == b[j].data
         && (a[j].key == 0 <==> b[j].key == 0)
  }

  function Slot(nodeIndex: map<nat, nat>, node: nat): nat {
    if node in nodeIndex then nodeIndex[node] else 0
  }

  /** The map view is what the records say. */
  ghost predicate View<D>(ins: seq<HeapNode<D>>, nodeIndex: map<nat, nat>,
                          keys: map<nat, int>, data: map<nat, D>, queue: set<nat>)
  {
    && keys.Keys == data.Keys
    && (forall j :: 0 <= j < |ins| ==> ins[j].node in keys && Slot(nodeIndex, ins[j].node) == j)
    && (forall n {:trigger Slot(nodeIndex, n)} :: n in keys ==>
          ViewOf(ins, Slot(nodeIndex, n), n, keys[n], data[n], n in queue))
    && queue <= keys.Keys
  }

  ghost predicate ViewOf<D>(ins: seq<HeapNode<D>>, j: nat, node: nat, key: int, data: D, queued: bool) {
    j < |ins| && ins[j].node == node && ins[j].weight == key && ins[j].data == data && (queued <==> ins[j].key != 0)
  }

  lemma ViewKept<D>(ins: seq<HeapNode<D>>, ins': seq<HeapNode<D>>, nodeIndex: map<nat, nat>,
                    keys: map<nat, int>, data: map<nat, D>, queue: set<nat>)
    requires View(ins, nodeIndex, keys, data, queue) && SameRecords(ins, ins')
    ensures View(ins', nodeIndex, keys, data, queue)
  {
    forall n | n in keys ensures ViewOf(ins', Slot(nodeIndex, n), n, keys[n], data[n], n in queue) {
      assert ViewOf(ins, Slot(nodeIndex, n), n, keys[n], data[n], n in queue);
    }
  }

  /** Rewriting one record in place rewrites one entry of the view. */
  lemma ViewUpdated<D>(ins: seq<HeapNode<D>>, nodeIndex: map<nat, nat>,
                       keys: map<nat, int>, data: map<nat, D>, queue: set<nat>, node: nat, r: HeapNode<D>,
                       keys': map<nat, int>, data': map<nat, D>, queue': set<nat>)
    requires View(ins, nodeIndex, keys, data, queue)
    requires node in keys && r.node == node
    requires keys'.Keys == keys.Keys && data'.Keys == data.Keys && queue' - {node} == queue - {node}
    requires keys'[node] == r.weight && data'[node] == r.data && (node in queue' <==> r.key != 0)
    requires forall n :: n in keys && n != node ==> keys'[n] == keys[n] && data'[n] == data[n]
    ensures Slot(nodeIndex, node) < |ins|
    ensures View(ins[Slot(nodeIndex, node) := r], nodeIndex, keys', data', queue')
  {
    var j := Slot(nodeIndex, node);
    assert ViewOf(ins, j, node, keys[node], data[node], node in queue);
    var ins' := ins[j := r];
    forall n | n in keys' ensures ViewOf(ins', Slot(nodeIndex, n), n, keys'[n], data'[n], n in queue') {
      assert ViewOf(ins, Slot(nodeIndex, n), n, keys[n], data[n], n in queue);
      assert n != node ==> (n in queue' <==> n in queue' - {node}) && (n in queue <==> n in queue - {node});
    }
    forall n | n in queue' ensures n in keys' { assert n != node ==> n in queue' - {node}; }
  }

  lemma ViewInserted<D>(ins: seq<HeapNode<D>>, nodeIndex: map<nat, nat>,
                        keys: map<nat, int>, data: map<nat, D>, queue: set<nat>, r: HeapNode<D>)
    requires View(ins, nodeIndex, keys, data, queue)
    requires r.node !in keys && r.key != 0
    ensures View(ins + [r], nodeIndex[r.node := |ins|], keys[r.node := r.weight], data[r.node := r.data],
                 queue + {r.node})
  {
    var ins', index', keys', data' := ins + [r], nodeIndex[r.node := |ins|], keys[r.node := r.weight],
        data[r.node := r.data];
    assert keys'.Keys == keys.Keys + {r.node} && data'.Keys == data.Keys + {r.node};
    forall n | n in keys' ensures ViewOf(ins', Slot(index', n), n, keys'[n], data'[n], n in queue + {r.node}) {
      if n != r.node {
        assert ViewOf(ins, Slot(nodeIndex, n), n, keys[n], data[n], n in queue);
      }
    }
  }

  /** Exchanging two heap slots along with the keys that point at them. */
  lemma Exchanged<D>(h: seq<HeapElement>, ins: seq<HeapNode<D>>, i: nat, k: nat)
    requires CrossIndexed(h, ins) && HasSentinel(h)
    requires 1 <= i < |h| && 1 <= k < |h| && i != k
    ensures h[i].index < |ins| && h[k].index < |ins| && h[i].index != h[k].index
    ensures CrossIndexed(h[i := h[k]][k := h[i]],
                         ins[h[i].index := ins[h[i].index].(key := k)][h[k].index := ins[h[k].index].(key := i)])
    ensures HasSentinel(h[i := h[k]][k := h[i]])
  {
    var h' := h[i := h[k]][k := h[i]];
    assert forall n :: 0 <= n < |h'| ==> MIN_WEIGHT <= h'[n].weight;
  }

  /** A sift in progress: with `e` put back into the hole at `key`, the heap is `h` and the records are `ins`. */
  ghost predicate Sifting<D>(heap: seq<HeapElement>, nodes: seq<HeapNode<D>>, key: nat, e: HeapElement,
                             h: seq<HeapElement>, ins: seq<HeapNode<D>>)
  {
    && 1 <= key < |heap| && e.index < |nodes|
    && h == heap[key := e]
    && ins == nodes[e.index := nodes[e.index].(key := key)]
    && CrossIndexed(h, ins) && HasSentinel(h)
  }

  /** One step of a sift: the hole moves from `key` to `next`. */
  lemma SiftStep<D>(heap: seq<HeapElement>, nodes: seq<HeapNode<D>>, key: nat, e: HeapElement,
                    h: seq<HeapElement>, ins: seq<HeapNode<D>>, next: nat)
    requires Sifting(heap, nodes, key, e, h, ins)
    requires 1 <= next < |heap| && next != key
    ensures heap[next] == h[next] && heap[next].index < |nodes|
    ensures var moved := heap[next].index;
            var h' := h[key := h[next]][next := h[key]];
            var ins' := ins[e.index := ins[e.index].(key := next)][moved := ins[moved].(key := key)];
            && Sifting(heap[key := heap[next]], nodes[moved := nodes[moved].(key := key)], next, e, h', ins')
            && SameRecords(ins, ins')
  {
    Exchanged(h, ins, key, next);
  }

  lemma RaisedKeepsOrder(h: seq<HeapElement>, k: nat)
    requires 2 <= k < |h| && OrderedExceptUp(h, k) && h[Parent(k)].weight > h[k].weight
    ensures OrderedExceptUp(h[k := h[Parent(k)]][Parent(k) := h[k]], Parent(k))
  {
  }

  lemma LoweredKeepsOrder<D>(h: seq<HeapElement>, ins: seq<HeapNode<D>>, k: nat, weight: int)
    requires CrossIndexed(h, ins) && HasSentinel(h) && Ordered(h)
    requires 1 <= k < |h| && MIN_WEIGHT <= weight <= h[k].weight
    ensures var h', i := h[k := h[k].(weight := weight)], h[k].index;
            && CrossIndexed(h', ins[i := ins[i].(weight := weight)])
            && HasSentinel(h') && OrderedExceptUp(h', k)
  {
  }

  lemma AppendedKeepsOrder<D>(h: seq<HeapElement>, ins: seq<HeapNode<D>>, r: HeapNode<D>)
    requires CrossIndexed(h, ins) && HasSentinel(h) && Ordered(h)
    requires r.key == |h| && MIN_WEIGHT <= r.weight
    ensures var h' := h + [HeapElement(|ins|, r.weight)];
            CrossIndexed(h', ins + [r]) && HasSentinel(h') && OrderedExceptUp(h', |h|)
  {
  }

  ghost predicate LighterChild(h: seq<HeapElement>, k: nat, c: nat) {
    && 1 <= k && 2 * k <= c <= 2 * k + 1 && c < |h|
    && h[c].weight <= h[2 * k].weight
    && (2 * k + 1 < |h| ==> h[c].weight <= h[2 * k + 1].weight)
  }

  function PickChild(h: seq<HeapElement>, k: nat): (c: nat)
    requires 1 <= k && 2 * k < |h|
    ensures LighterChild(h, k, c)
  {
    var nextKey, nextKeyOther := 2 * k, 2 * k + 1;
    if nextKeyOther < |h| && h[nextKey].weight > h[nextKeyOther].weight then nextKeyOther else nextKey
  }

  /** `h` is `heap` with the dropping element `e` in the hole at `k`: either it may stay there,
      or exchanging it with its lighter child `c` moves the disorder down to `c`. */
  lemma DroppedKeepsOrder(heap: seq<HeapElement>, k: nat, e: HeapElement, c: nat)
    requires LighterChild(heap, k, c)
    requires OrderedExceptDown(heap[k := e], k)
    ensures var h := heap[k := e];
            && h[c] == heap[c]
            && (heap[c].weight < e.weight ==> OrderedExceptDown(h[k := h[c]][c := h[k]], c))
            && (e.weight <= heap[c].weight ==> Ordered(h))
  {
    var h := heap[k := e];
    assert forall i {:trigger Parent(i)} :: Parent(i) == k ==> i == 2 * k || i == 2 * k + 1;
    assert forall i {:trigger Parent(i)} :: 2 <= i < |h| && Parent(i) == k ==> h[c].weight <= h[i].weight;
    if heap[c].weight < e.weight {
      var h' := h[k := h[c]][c := h[k]];
      assert Parent(c) == k;
      assert forall i {:trigger Parent(i)} :: 2 <= i < |h'| && Parent(i) != c ==> h'[Parent(i)].weight <= h'[i].weight;
      assert Bridged(h', c);
    }
  }

  /** Removing the root: the last slot moves to the front, where it may be too heavy. */
  lemma LastMovedToRoot<D>(h: seq<HeapElement>, ins: seq<HeapNode<D>>)
    requires CrossIndexed(h, ins) && HasSentinel(h) && Ordered(h) && |h| > 2
    ensures var last := |h| - 1;
            var h', root := h[1 := h[last]][..last], h[1].index;
            var ins' := ins[root := ins[root].(key := 0)];
            && h'[1].index < |ins'| && ins'[h'[1].index].key != 0
            && CrossIndexed(h', ins'[h'[1].index := ins'[h'[1].index].(key := 1)])
            && HasSentinel(h') && OrderedExceptDown(h', 1)
  {
  }

  lemma {:induction false} RootIsMinimal(h: seq<HeapElement>, i: nat)
    requires Ordered(h)
    requires 1 <= i < |h|
    ensures h[1].weight <= h[i].weight
    decreases i
  {
    if i > 1 { RootIsMinimal(h, Parent(i)); }
  }

  class BinaryHeap<D> {
    var heap: seq<HeapElement>
    var insertedNodes: seq<HeapNode<D>>
    var nodeIndex: map<nat, nat>

    ghost var keys: map<nat, int>
    ghost var data: map<nat, D>
    ghost var queue: set<nat>

    function Lookup(node: nat): nat
      reads this
    {
      Slot(nodeIndex, node)
    }

    ghost predicate Abstracts()
      reads this
    {
      View(insertedNodes, nodeIndex, keys, data, queue)
    }

    ghost predicate Valid()
      reads this
    {
      && CrossIndexed(heap, insertedNodes)
      && HasSentinel(heap)
      && Ordered(heap)
      && Abstracts()
    }

    constructor ()
      ensures Valid()
      ensures keys == map[] && data == map[] && queue == {}
    {
      heap := [HeapElement(0, MIN_WEIGHT)];
      insertedNodes := [];
      nodeIndex := *;
      keys, data, queue := map[], map[], {};
    }

    /** Empties the heap. The index storage is left with arbitrary contents. */
    method Clear()
      requires Valid()
      modifies this
      ensures Valid()
      ensures keys == map[] && data == map[] && queue == {}
    {
      heap := [HeapElement(0, MIN_WEIGHT)];
      insertedNodes := [];
      nodeIndex := *;
      keys, data, queue := map[], map[], {};
    }

    /** Zero in the representation is empty in the view. */
    function Size(): (n: nat)
      requires Valid()
      reads this
      ensures n == 0 <==> queue == {}
    {
      SizeIsQueue();
      |heap| - 1
    }

    lemma SizeIsQueue()
      requires Valid()
      ensures |heap| == 1 <==> queue == {}
    {
      if queue != {} {
        var q :| q in queue;
        assert ViewOf(insertedNodes, Slot(nodeIndex, q), q, keys[q], data[q], true);
      }
      if |heap| > 1 {
        assert insertedNodes[heap[1].index].node in queue;
      }
    }

    function Empty(): (r: bool)
      requires Valid()
      reads this
      ensures r <==> queue == {}
    {
      Size() == 0
    }

    /** Right whatever stale slot the index storage returns. */
    function WasInserted(node: nat): (r: bool)
      requires Valid()
      reads this
      ensures r <==> node in keys
    {
      var index := Lookup(node);
      index < |insertedNodes| && insertedNodes[index].node == node
    }

    function WasRemoved(node: nat): (r: bool)
      requires Valid() && node in keys
      reads this
      ensures r <==> node !in queue
    {
      insertedNodes[Lookup(node)].key == 0
    }

    function GetKey(node: nat): (w: int)
      requires Valid() && node in keys
      reads this
      ensures w == keys[node]
    {
      insertedNodes[Lookup(node)].weight
    }

    function GetData(node: nat): (d: D)
      requires Valid() && node in keys
      reads this
      ensures d == data[node]
    {
      insertedNodes[Lookup(node)].data
    }

    method SetData(node: nat, d: D)
      requires Valid() && node in keys
      modifies this
      ensures Valid()
      ensures data == old(data)[node := d] && keys == old(keys) && queue == old(queue)
    {
      var index := Lookup(node);
      assert ViewOf(insertedNodes, index, node, keys[node], data[node], node in queue);
      ViewUpdated(insertedNodes, nodeIndex, keys, data, queue, node, insertedNodes[index].(data := d),
                  keys, data[node := d], queue);
      insertedNodes := insertedNodes[index := insertedNodes[index].(data := d)];
      data := data[node := d];
    }

    method Insert(node: nat, weight: int, d: D)
      requires Valid() && node !in keys && MIN_WEIGHT <= weight
      modifies this
      ensures Valid()
      ensures keys == old(keys)[node := weight]
      ensures data == old(data)[node := d]
      ensures queue == old(queue) + {node}
    {
      var index, key := |insertedNodes|, |heap|;
      ViewInserted(insertedNodes, nodeIndex, keys, data, queue, HeapNode(node, key, weight, d));
      AppendedKeepsOrder(heap, insertedNodes, HeapNode(node, key, weight, d));
      heap := heap + [HeapElement(index, weight)];
      insertedNodes := insertedNodes + [HeapNode(node, key, weight, d)];
      nodeIndex := nodeIndex[node := index];
      keys, data, queue := keys[node := weight], data[node := d], queue + {node};
      ghost var before := insertedNodes;
      Upheap(key);
      ViewKept(before, insertedNodes, nodeIndex, keys, data, queue);
    }

    method DeleteMin() returns (node: nat)
      requires Valid() && queue != {}
      modifies this
      ensures Valid()
      ensures node in old(queue) && queue == old(queue) - {node}
      ensures keys == old(keys) && data == old(data)
      ensures forall q :: q in old(queue) ==> keys[node] <= keys[q]
    {
      assert !Empty();
      var removedIndex := heap[1].index;
      node := insertedNodes[removedIndex].node;
      RootBeatsQueue(node);
      assert ViewOf(insertedNodes, removedIndex, node, keys[node], data[node], node in queue);
      ViewUpdated(insertedNodes, nodeIndex, keys, data, queue, node, insertedNodes[removedIndex].(key := 0),
                  keys, data, queue - {node});
      var last := |heap| - 1;
      ghost var h, ins := heap, insertedNodes;
      heap := heap[1 := heap[last]][..last];
      insertedNodes := insertedNodes[removedIndex := insertedNodes[removedIndex].(key := 0)];
      queue := queue - {node};
      if |heap| > 1 {
        LastMovedToRoot(h, ins);
        ghost var before := insertedNodes;
        Downheap(1);
        ViewKept(before, insertedNodes, nodeIndex, keys, data, queue);
      }
    }

    lemma RootBeatsQueue(node: nat)
      requires Valid() && |heap| > 1 && node == insertedNodes[heap[1].index].node
      ensures node in queue
      ensures forall q :: q in queue ==> keys[node] <= keys[q]
    {
      assert ViewOf(insertedNodes, Lookup(node), node, keys[node], data[node], node in queue);
      forall q | q in queue ensures keys[node] <= keys[q] {
        assert ViewOf(insertedNodes, Lookup(q), q, keys[q], data[q], q in queue);
        RootIsMinimal(heap, insertedNodes[Lookup(q)].key);
      }
    }

    method DeleteAll()
      requires Valid()
      modifies this
      ensures Valid()
      ensures keys == old(keys) && data == old(data) && queue == {}
    {
      var i := 1;
      while i < |heap|
        invariant 1 <= i <= |heap| && heap == old(heap)
        invariant |insertedNodes| == |old(insertedNodes)| && nodeIndex == old(nodeIndex)
        invariant keys == old(keys) && data == old(data)
        invariant forall j :: 0 <= j < |insertedNodes| ==>
          insertedNodes[j] == old(insertedNodes)[j].(key := insertedNodes[j].key)
        invariant forall j :: 0 <= j < |insertedNodes| ==>
          insertedNodes[j].key == if old(insertedNodes)[j].key < i then 0 else old(insertedNodes)[j].key
      {
        var index := heap[i].index;
        insertedNodes := insertedNodes[index := insertedNodes[index].(key := 0)];
        i := i + 1;
      }
      forall n | n in keys ensures ViewOf(insertedNodes, Lookup(n), n, keys[n], data[n], false) {
        assert ViewOf(old(insertedNodes), Lookup(n), n, keys[n], data[n], n in old(queue));
      }
      heap := [HeapElement(heap[0].index, MIN_WEIGHT)];
      queue := {};
    }

    /** The node must still be in the heap: the source would otherwise overwrite the sentinel. */
    method DecreaseKey(node: nat, weight: int)
      requires Valid() && node in queue && MIN_WEIGHT <= weight <= keys[node]
      modifies this
      ensures Valid()
      ensures keys == old(keys)[node := weight] && data == old(data) && queue == old(queue)
    {
      var index := Lookup(node);
      assert ViewOf(insertedNodes, index, node, keys[node], data[node], node in queue);
      ViewUpdated(insertedNodes, nodeIndex, keys, data, queue, node, insertedNodes[index].(weight := weight),
                  keys[node := weight], data, queue);
      var key := insertedNodes[index].key;
      LoweredKeepsOrder(heap, insertedNodes, key, weight);
      insertedNodes := insertedNodes[index := insertedNodes[index].(weight := weight)];
      heap := heap[key := heap[key].(weight := weight)];
      keys := keys[node := weight];
      ghost var before := insertedNodes;
      Upheap(key);
      ViewKept(before, insertedNodes, nodeIndex, keys, data, queue);
    }

    /** Sifts the element at `start` up by moving parents down into the hole it leaves. */
    method Upheap(start: nat)
      requires 1 <= start < |heap|
      requires CrossIndexed(heap, insertedNodes) && HasSentinel(heap) && OrderedExceptUp(heap, start)
      modifies `heap, `insertedNodes
      ensures CrossIndexed(heap, insertedNodes) && HasSentinel(heap) && Ordered(heap)
      ensures SameRecords(old(insertedNodes), insertedNodes)
    {
      var key := start;
      var rising := heap[key];
      var nextKey := Parent(key);
      ghost var h, ins := heap, insertedNodes;
      while heap[nextKey].weight > rising.weight
        invariant 1 <= key < |heap| && nextKey == Parent(key)
        invariant Sifting(heap, insertedNodes, key, rising, h, ins)
        invariant OrderedExceptUp(h, key)
        invariant SameRecords(old(insertedNodes), ins)
        decreases key
      {
        RaisedKeepsOrder(h, key);
        SiftStep(heap, insertedNodes, key, rising, h, ins, nextKey);
        heap := heap[key := heap[nextKey]];
        var moved := heap[key].index;
        insertedNodes := insertedNodes[moved := insertedNodes[moved].(key := key)];
        h := h[key := h[nextKey]][nextKey := h[key]];
        ins := ins[rising.index := ins[rising.index].(key := nextKey)][moved := ins[moved].(key := key)];
        key := nextKey;
        nextKey := Parent(nextKey);
      }
      heap := heap[key := rising];
      insertedNodes := insertedNodes[rising.index := insertedNodes[rising.index].(key := key)];
    }

    /** Sifts the element at `start` down by moving the lighter child up into the hole.
        The key stored for that element on entry is immaterial: it is rewritten at the end. */
    method Downheap(start: nat)
      requires 1 <= start < |heap| && heap[start].index < |insertedNodes|
      requires insertedNodes[heap[start].index].key != 0
      requires var i := heap[start].index;
               CrossIndexed(heap, insertedNodes[i := insertedNodes[i].(key := start)])
      requires HasSentinel(heap) && OrderedExceptDown(heap, start)
      modifies `heap, `insertedNodes
      ensures CrossIndexed(heap, insertedNodes) && HasSentinel(heap) && Ordered(heap)
      ensures SameRecords(old(insertedNodes), insertedNodes)
    {
      var key := start;
      var dropping := heap[key];
      var nextKey := 2 * key;
      ghost var h, ins := heap, insertedNodes[dropping.index := insertedNodes[dropping.index].(key := key)];
      while nextKey < |heap|
        invariant 1 <= key < |heap| && nextKey == 2 * key
        invariant Sifting(heap, insertedNodes, key, dropping, h, ins)
        invariant OrderedExceptDown(h, key)
        invariant SameRecords(old(insertedNodes), ins)
        decreases |heap| - key
      {
        nextKey := PickChild(heap, key);
        DroppedKeepsOrder(heap, key, dropping, nextKey);
        SiftStep(heap, insertedNodes, key, dropping, h, ins, nextKey);
        if dropping.weight <= heap[nextKey].weight {
          break;
        }
        heap := heap[key := heap[nextKey]];
        var moved := heap[key].index;
        insertedNodes := insertedNodes[moved := insertedNodes[moved].(key := key)];
        h := h[key := h[nextKey]][nextKey := h[key]];
        ins := ins[dropping.index := ins[dropping.index].(key := nextKey)][moved := ins[moved].(key := key)];
        key := nextKey;
        nextKey := 2 * nextKey;
      }
      heap := heap[key := dropping];
      insertedNodes := insertedNodes[dropping.index := insertedNodes[dropping.index].(key := key)];
    }
  }
}
