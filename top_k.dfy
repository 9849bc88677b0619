/**
 * The bounded min-structure that HotWordSystem's top-K query fills while it
 * scans the aggregate. The source keeps a binary min-heap of (count, id)
 * pairs ordered as std::pair orders them; here the heap is the strictly
 * ascending sequence of its elements, so its top is the first element,
 * popping drops it and pushing inserts in order.
 */
module TopK {

  /** A heap element: a word id's count and the id, compared count first. */
  type Node = (int, nat)

  /** Lexicographic order on nodes: lower count first, then lower id. */
  predicate Below(a: Node, b: Node)
  {
    a.0 < b.0 || (a.0 == b.0 && a.1 < b.1)
  }

  /** The nodes of `h` are strictly ascending, so `h[0]` is the heap's top. */
  ghost predicate Ascending(h: seq<Node>)
  {
    forall i, j :: 0 <= i < j < |h| ==> Below(h[i], h[j])
  }

  /** Pushing `x` onto the heap `h`: the result holds exactly the old nodes and `x`, still ascending. */
  function Insert(h: seq<Node>, x: Node): (r: seq<Node>)
    requires Ascending(h) && x !in h
    ensures Ascending(r)
    ensures multiset(r) == multiset(h) + multiset{x}
  {
    if h == [] || Below(x, h[0]) then
      ConsBelowHead(x, h);
      [x] + h
    else
      assert h == [h[0]] + h[1..];
      PopTop(h);
      var rest := Insert(h[1..], x);
      PrependKeepsAscending(h[0], h[1..], x, rest);
      [h[0]] + rest
  }

  /** A node below the head of an ascending heap may be put in front of it. */
  lemma ConsBelowHead(x: Node, h: seq<Node>)
    requires Ascending(h) && (h == [] || Below(x, h[0]))
    ensures Ascending([x] + h)
  {
    forall i, j | 0 <= i < j < |[x] + h| ensures Below(([x] + h)[i], ([x] + h)[j]) {
      if i == 0 && j > 1 {
        assert Below(h[0], h[j - 1]);
      }
    }
  }

  /** A node below every node of `tail` and below `x` may head any ascending reordering of `tail` and `x`. */
  lemma PrependKeepsAscending(y: Node, tail: seq<Node>, x: Node, rest: seq<Node>)
    requires Ascending([y] + tail) && Below(y, x)
    requires Ascending(rest) && multiset(rest) == multiset(tail) + multiset{x}
    ensures Ascending([y] + rest)
  {
    forall n | n in rest ensures Below(y, n) {
      assert n in multiset(rest);
      if n != x {
        assert n in multiset(tail);
        var k :| 0 <= k < |tail| && tail[k] == n;
        assert ([y] + tail)[0] == y && ([y] + tail)[k + 1] == n;
      }
    }
    forall i, j | 0 <= i < j < |[y] + rest| ensures Below(([y] + rest)[i], ([y] + rest)[j]) {
      if i == 0 {
        assert rest[j - 1] in rest;
      } else {
        assert ([y] + rest)[i] == rest[i - 1] && ([y] + rest)[j] == rest[j - 1];
      }
    }
  }

  // ---------------------------------------------------------------------------
  // The scan over the aggregate
  // ---------------------------------------------------------------------------

  /** The ids with a positive count: the only ones the scan offers to the heap. */
  ghost function PositiveIds(counts: map<nat, int>): set<nat>
  {
    set id | id in counts && counts[id] > 0
  }

  /**
   * The heap after the ids in `seen` have been offered, with capacity `k`:
   * it holds (count, id) nodes of seen ids only, min(k, |seen|) of them;
   * while it is below capacity it holds every seen id; and no seen id left
   * out has a count above the heap's minimum.
   */
  ghost predicate Scanned(counts: map<nat, int>, k: int, heap: seq<Node>, seen: set<nat>)
  {
    && seen <= counts.Keys
    && Ascending(heap)
    && (forall n :: n in heap ==> n.1 in seen && n.0 == counts[n.1])
    && |heap| == (if |seen| < k then |seen| else k)
    && (|heap| < k ==> forall id :: id in seen ==> (counts[id], id) in heap)
    && (heap != [] ==> forall id :: id in seen && (counts[id], id) !in heap ==> counts[id] <= heap[0].0)
  }

  /** Pushing adds exactly one node. */
  lemma InsertMembers(h: seq<Node>, x: Node)
    requires Ascending(h) && x !in h
    ensures |Insert(h, x)| == |h| + 1
    ensures forall n :: n in Insert(h, x) <==> n in h || n == x
  {
    var r := Insert(h, x);
    assert forall n :: n in r <==> n in multiset(r);
    assert forall n :: n in h <==> n in multiset(h);
    assert |r| == |multiset(r)| && |h| == |multiset(h)|;
  }

  /** Popping the top leaves the other nodes, all above the old top, still ascending. */
  lemma PopTop(h: seq<Node>)
    requires Ascending(h) && h != []
    ensures Ascending(h[1..])
    ensures forall n :: n in h[1..] <==> n in h && n != h[0]
    ensures forall n :: n in h[1..] ==> Below(h[0], n)
  {
    forall n | n in h ensures n == h[0] || (n in h[1..] && Below(h[0], n)) {
      var j :| 0 <= j < |h| && h[j] == n;
      if j > 0 {
        assert h[1..][j - 1] == n;
      }
    }
  }

  /**
   * The heap after `x` is offered to it with capacity `k`: below capacity
   * `x` is pushed; at capacity `x` replaces the top when its count is
   * higher; otherwise the heap is left as it is.
   */
  function Offer(heap: seq<Node>, k: int, x: Node): seq<Node>
    requires Ascending(heap) && x !in heap
  {
    if |heap| < k then Insert(heap, x)
    else if heap != [] && x.0 > heap[0].0 then
      PopTop(heap);
      Insert(heap[1..], x)
    else heap
  }

  /** Offering a positive-count id not yet seen keeps the scan invariant, with the id now seen. */
  lemma ScanOffer(counts: map<nat, int>, k: int, heap: seq<Node>, seen: set<nat>, id: nat)
    requires Scanned(counts, k, heap, seen) && id in counts && id !in seen && k > 0
    ensures (counts[id], id) !in heap
    ensures Scanned(counts, k, Offer(heap, k, (counts[id], id)), seen + {id})
  {
    if |heap| < k {
      ScanPush(counts, k, heap, seen, id);
    } else if counts[id] > heap[0].0 {
      ScanReplace(counts, k, heap, seen, id);
    } else {
      ScanSkip(counts, k, heap, seen, id);
    }
  }

  /** Offering `id` to a heap below capacity pushes it. */
  lemma ScanPush(counts: map<nat, int>, k: int, heap: seq<Node>, seen: set<nat>, id: nat)
    requires Scanned(counts, k, heap, seen) && id in counts && id !in seen && |heap| < k
    ensures (counts[id], id) !in heap
    ensures Scanned(counts, k, Insert(heap, (counts[id], id)), seen + {id})
  {
    InsertMembers(heap, (counts[id], id));
  }

  /** Offering `id` to a full heap whose minimum count is lower evicts the minimum and pushes `id`. */
  lemma ScanReplace(counts: map<nat, int>, k: int, heap: seq<Node>, seen: set<nat>, id: nat)
    requires Scanned(counts, k, heap, seen) && id in counts && id !in seen
    requires k > 0 && |heap| == k && counts[id] > heap[0].0
    ensures Ascending(heap[1..]) && (counts[id], id) !in heap[1..]
    ensures Scanned(counts, k, Insert(heap[1..], (counts[id], id)), seen + {id})
  {
    var x := (counts[id], id);
    var low := heap[0];
    PopTop(heap);
    InsertMembers(heap[1..], x);
    var r := Insert(heap[1..], x);
    assert r[0] in r;
    assert r[0].0 >= low.0;
    forall y | y in seen + {id} && (counts[y], y) !in r
      ensures counts[y] <= r[0].0
    {
      if y != id && (counts[y], y) in heap {
        assert (counts[y], y) == low;
      }
    }
  }

  /** Offering `id` to a full heap whose minimum count is not lower leaves the heap as it is. */
  lemma ScanSkip(counts: map<nat, int>, k: int, heap: seq<Node>, seen: set<nat>, id: nat)
    requires Scanned(counts, k, heap, seen) && id in counts && id !in seen
    requires k > 0 && |heap| == k && counts[id] <= heap[0].0
    ensures Scanned(counts, k, heap, seen + {id})
  {
  }

  /** Taking `id` off the pending set adds it to the offered ids exactly when its count is positive. */
  lemma OfferedNext(counts: map<nat, int>, pending: set<nat>, id: nat)
    requires id in pending && pending <= counts.Keys
    ensures counts[id] > 0 ==> PositiveIds(counts) - (pending - {id}) == (PositiveIds(counts) - pending) + {id}
    ensures counts[id] <= 0 ==> PositiveIds(counts) - (pending - {id}) == PositiveIds(counts) - pending
  {
  }

  /**
   * Scans the aggregate `counts`, offering every entry with a positive count
   * to a min-heap of capacity `k`; entries with no positive count are skipped.
   */
  method ScanCounts(counts: map<nat, int>, k: int) returns (heap: seq<Node>)
    requires k > 0
    ensures Scanned(counts, k, heap, PositiveIds(counts))
  {
    heap := [];
    var pending := counts.Keys;
    while pending != {}
      invariant pending <= counts.Keys
      invariant Scanned(counts, k, heap, PositiveIds(counts) - pending)
      decreases pending
    {
      var id :| id in pending;
      ghost var seen := PositiveIds(counts) - pending;
      OfferedNext(counts, pending, id);
      var count := counts[id];
      if count > 0 {
        ScanOffer(counts, k, heap, seen, id);
        heap := Offer(heap, k, (count, id));
      }
      pending := pending - {id};
    }
  }
}
