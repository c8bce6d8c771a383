// The static Huffman encoder: countSymbol tallies the symbols in a map
// ordered by symbol; encodeTree merges the two lightest nodes until one
// tree is left, derives every symbol's code from the parent links, and
// streams the tree post-order; encodeSymbol inserts a symbol's code into
// the blob.

module HuffmanEncoder {
  import opened Huffman
  import Containers

  // ---------------------------------------------------------------------
  // The symbol map

  /** A pair of the symbol map: a symbol and its count, or once encodeTree
      has run, the offset of its code in huffmanCodes. */
  datatype Entry = Entry(key: Symbol, value: nat)

  /** The keys of a BlobSet strictly increase. */
  predicate Increasing(m: seq<Entry>)
  {
    forall i, j :: 0 <= i < j < |m| ==> m[i].key < m[j].key
  }

  predicate Counted(m: seq<Entry>, s: Symbol)
  {
    exists i :: 0 <= i < |m| && m[i].key == s
  }

  /** The count of a symbol: the value of its pair, or 0 without one. */
  function Count(m: seq<Entry>, s: Symbol): nat
  {
    if m == [] then 0 else if m[0].key == s then m[0].value else Count(m[1..], s)
  }

  lemma {:induction false} CountAt(m: seq<Entry>, i: nat)
    requires Increasing(m) && i < |m|
    ensures Count(m, m[i].key) == m[i].value
    decreases i
  {
    if i > 0 {
      assert m[0].key < m[i].key;
      assert m[1..][i - 1] == m[i];
      CountAt(m[1..], i - 1);
    }
  }

  lemma {:induction false} CountAbsent(m: seq<Entry>, s: Symbol)
    requires forall i :: 0 <= i < |m| ==> m[i].key != s
    ensures Count(m, s) == 0
    decreases |m|
  {
    if m != [] {
      assert m[0].key != s;
      CountAbsent(m[1..], s);
    }
  }

  /** The search predicate of BlobSet.find: pair i has a smaller key. */
  function KeyBelow(m: seq<Entry>, s: Symbol): nat -> bool
  {
    (i: nat) => i < |m| && m[i].key < s
  }

  lemma IncreasingBelow(m: seq<Entry>, s: Symbol)
    requires Increasing(m)
    ensures Containers.HoldsOnPrefix(|m|, KeyBelow(m, s))
    ensures forall i: nat :: KeyBelow(m, s)(i) <==> i < |m| && m[i].key < s
  {
  }

  /** BlobSet.find on the pairs: whether one has the symbol, and where it
      is or would be inserted. */
  method Locate(m: seq<Entry>, s: Symbol) returns (found: bool, at: nat)
    requires Increasing(m)
    ensures at <= |m|
    ensures forall i :: 0 <= i < at ==> m[i].key < s
    ensures forall i :: at <= i < |m| ==> s <= m[i].key
    ensures found <==> Counted(m, s)
    ensures found ==> at < |m| && m[at].key == s
  {
    at := Containers.BinarySearch(|m|, KeyBelow(m, s));
    IncreasingBelow(m, s);
    found := at < |m| && m[at].key == s;
    if !found {
      forall i | 0 <= i < |m|
        ensures m[i].key != s
      {
        if at < i {
          assert m[at].key < m[i].key;
        }
      }
    }
  }

  /** Incrementing the count of the pair at `at`. */
  lemma Bumped(m: seq<Entry>, at: nat, m': seq<Entry>)
    requires Increasing(m) && at < |m| && m' == m[at := Entry(m[at].key, m[at].value + 1)]
    ensures Increasing(m')
    ensures forall x :: Count(m', x) == Count(m, x) + (if x == m[at].key then 1 else 0)
    ensures forall x :: Counted(m', x) <==> Counted(m, x)
  {
    forall x
      ensures Count(m', x) == Count(m, x) + (if x == m[at].key then 1 else 0)
    {
      if x == m[at].key {
        CountAt(m', at);
        CountAt(m, at);
      } else if Counted(m, x) {
        var j :| 0 <= j < |m| && m[j].key == x;
        CountAt(m', j);
        CountAt(m, j);
      } else {
        CountAbsent(m', x);
        CountAbsent(m, x);
      }
    }
    forall x
      ensures Counted(m', x) <==> Counted(m, x)
    {
      if Counted(m, x) {
        var j :| 0 <= j < |m| && m[j].key == x;
        assert m'[j].key == x;
      }
      if Counted(m', x) {
        var j :| 0 <= j < |m'| && m'[j].key == x;
        assert m[j].key == x;
      }
    }
  }

  /** Inserting the pair (s, 1) where the keys before are smaller and the
      keys after are larger. */
  lemma Inserted(m: seq<Entry>, at: nat, s: Symbol, m': seq<Entry>)
    requires Increasing(m) && at <= |m|
    requires forall i :: 0 <= i < at ==> m[i].key < s
    requires forall i :: at <= i < |m| ==> s < m[i].key
    requires m' == m[..at] + [Entry(s, 1)] + m[at..]
    ensures Increasing(m')
    ensures forall x :: Count(m', x) == Count(m, x) + (if x == s then 1 else 0)
    ensures forall x :: Counted(m', x) <==> Counted(m, x) || x == s
  {
    InsertedOrder(m, at, s, m');
    forall x
      ensures Count(m', x) == Count(m, x) + (if x == s then 1 else 0)
    {
      InsertedCount(m, at, s, m', x);
    }
    forall x
      ensures Counted(m', x) <==> Counted(m, x) || x == s
    {
      InsertedCounted(m, at, s, m', x);
    }
  }

  /** Where an element of the map with an inserted pair comes from. */
  lemma InsertedAt(m: seq<Entry>, at: nat, e: Entry, i: nat)
    requires at <= |m| && i <= |m|
    ensures (m[..at] + [e] + m[at..])[i] == if i < at then m[i] else if i == at then e else m[i - 1]
  {
  }

  lemma InsertedOrder(m: seq<Entry>, at: nat, s: Symbol, m': seq<Entry>)
    requires Increasing(m) && at <= |m|
    requires forall i :: 0 <= i < at ==> m[i].key < s
    requires forall i :: at <= i < |m| ==> s < m[i].key
    requires m' == m[..at] + [Entry(s, 1)] + m[at..]
    ensures Increasing(m')
  {
    forall i, j | 0 <= i < j < |m'|
      ensures m'[i].key < m'[j].key
    {
      InsertedAt(m, at, Entry(s, 1), i);
      InsertedAt(m, at, Entry(s, 1), j);
    }
  }

  /** m' is m with the pair (s, 1) inserted at `at`, in key order. */
  ghost predicate InsertsAt(m: seq<Entry>, at: nat, s: Symbol, m': seq<Entry>)
  {
    && Increasing(m) && Increasing(m') && at <= |m|
    && (forall i :: 0 <= i < at ==> m[i].key < s)
    && (forall i :: at <= i < |m| ==> s < m[i].key)
    && m' == m[..at] + [Entry(s, 1)] + m[at..]
  }

  lemma InsertedCount(m: seq<Entry>, at: nat, s: Symbol, m': seq<Entry>, x: Symbol)
    requires Increasing(m) && Increasing(m') && at <= |m|
    requires forall i :: 0 <= i < at ==> m[i].key < s
    requires forall i :: at <= i < |m| ==> s < m[i].key
    requires m' == m[..at] + [Entry(s, 1)] + m[at..]
    ensures Count(m', x) == Count(m, x) + (if x == s then 1 else 0)
  {
    assert InsertsAt(m, at, s, m');
    if x == s {
      InsertedHere(m, at, s, m');
    } else if Counted(m, x) {
      var j :| 0 <= j < |m| && m[j].key == x;
      InsertedMoved(m, at, s, m', j);
    } else {
      InsertedNone(m, at, s, m', x);
    }
  }

  /** The inserted pair counts 1 for a symbol the map did not have. */
  lemma InsertedHere(m: seq<Entry>, at: nat, s: Symbol, m': seq<Entry>)
    requires InsertsAt(m, at, s, m')
    ensures Count(m', s) == Count(m, s) + 1
  {
    InsertedAt(m, at, Entry(s, 1), at);
    CountAt(m', at);
    CountAbsent(m, s);
  }

  /** A pair the map had keeps its count, one place further on past `at`. */
  lemma InsertedMoved(m: seq<Entry>, at: nat, s: Symbol, m': seq<Entry>, j: nat)
    requires InsertsAt(m, at, s, m') && j < |m|
    ensures Count(m', m[j].key) == Count(m, m[j].key)
  {
    var j' := if j < at then j else j + 1;
    InsertedAt(m, at, Entry(s, 1), j');
    CountAt(m', j');
    CountAt(m, j);
  }

  /** A symbol in neither map counts 0 in both. */
  lemma InsertedNone(m: seq<Entry>, at: nat, s: Symbol, m': seq<Entry>, x: Symbol)
    requires InsertsAt(m, at, s, m') && x != s && !Counted(m, x)
    ensures Count(m', x) == Count(m, x)
  {
    forall i | 0 <= i < |m'|
      ensures m'[i].key != x
    {
      InsertedAt(m, at, Entry(s, 1), i);
    }
    CountAbsent(m', x);
    CountAbsent(m, x);
  }

  lemma InsertedCounted(m: seq<Entry>, at: nat, s: Symbol, m': seq<Entry>, x: Symbol)
    requires at <= |m| && m' == m[..at] + [Entry(s, 1)] + m[at..]
    ensures Counted(m', x) <==> Counted(m, x) || x == s
  {
    if Counted(m, x) {
      var j :| 0 <= j < |m| && m[j].key == x;
      var j' := if j < at then j else j + 1;
      InsertedAt(m, at, Entry(s, 1), j');
    }
    if Counted(m', x) && x != s {
      var j :| 0 <= j < |m'| && m'[j].key == x;
      InsertedAt(m, at, Entry(s, 1), j);
      var j' := if j < at then j else j - 1;
      assert m[j'].key == x;
    }
    if x == s {
      InsertedAt(m, at, Entry(s, 1), at);
    }
  }

  /** countSymbol on the pairs: the symbol's count goes up by one, a new
      symbol getting a pair of its own in key order. */
  method Tally(m: seq<Entry>, s: Symbol) returns (m': seq<Entry>)
    requires Increasing(m)
    ensures Increasing(m')
    ensures forall x :: Count(m', x) == Count(m, x) + (if x == s then 1 else 0)
    ensures forall x :: Counted(m', x) <==> Counted(m, x) || x == s
  {
    var found, at := Locate(m, s);
    if found {
      m' := m[at := Entry(s, m[at].value + 1)];
      Bumped(m, at, m');
    } else {
      m' := m[..at] + [Entry(s, 1)] + m[at..];
      Inserted(m, at, s, m');
    }
  }

  // ---------------------------------------------------------------------
  // Merging the lightest nodes

  /** A symbolHeap element: the weight of a node and the node. */
  datatype Weighted = Weighted(weight: nat, node: nat)

  /** A huffmanParents element: the internal node above a node and which
      of its two children the node is. */
  datatype Parent = Parent(parent: nat, bit: bool)

  /** Every child in huffmanChildren lies below the internal node n + i / 2
      that has it. */
  predicate Formed(c: seq<nat>, n: nat)
  {
    forall i :: 0 <= i < |c| ==> c[i] < n + i / 2
  }

  /** Any node of formed arrays is a tree. */
  lemma {:induction false} FormedTree(c: seq<nat>, keys: seq<Symbol>, n: nat, k: nat, x: nat)
    requires Formed(c, n) && |c| == 2 * k && n <= |keys| && x < n + k
    ensures TreeAt(c, keys, n, x).Some?
    decreases x
  {
    if x >= n {
      var i := 2 * (x - n);
      assert c[i] < x && c[i + 1] < x;
      FormedTree(c, keys, n, k, c[i]);
      FormedTree(c, keys, n, k, c[i + 1]);
    }
  }

  /** The leaf counts of the nodes: one for a leaf, and for an internal
      node the sum of its two children's. */
  ghost predicate Spans(span: seq<nat>, c: seq<nat>, n: nat)
  {
    && n <= |span| && |c| == 2 * (|span| - n) && Formed(c, n)
    && (forall x :: 0 <= x < n ==> span[x] == 1)
    && (forall x {:trigger Joint(span, c, n, x)} :: n <= x < |span| ==> span[x] == Joint(span, c, n, x))
  }

  /** The leaf count of internal node x from its children's. */
  function Joint(span: seq<nat>, c: seq<nat>, n: nat, x: nat): nat
    requires n <= x && 2 * (x - n) + 1 < |c| && c[2 * (x - n)] < |span| && c[2 * (x - n) + 1] < |span|
  {
    span[c[2 * (x - n)]] + span[c[2 * (x - n) + 1]]
  }

  /** The leaf counts are those of the trees. */
  lemma {:induction false} SpanLeaves(span: seq<nat>, c: seq<nat>, keys: seq<Symbol>, n: nat, x: nat)
    requires Spans(span, c, n) && n <= |keys| && x < |span|
    ensures TreeAt(c, keys, n, x).Some? && Leaves(TreeAt(c, keys, n, x).value) == span[x]
    decreases x
  {
    if x >= n {
      var i := 2 * (x - n);
      assert c[i] < x && c[i + 1] < x;
      assert span[x] == Joint(span, c, n, x);
      SpanLeaves(span, c, keys, n, c[i]);
      SpanLeaves(span, c, keys, n, c[i + 1]);
    }
  }

  function Span(span: seq<nat>, x: nat): nat
  {
    if x < |span| then span[x] else 0
  }

  /** The number of leaves under the nodes of a heap. */
  function HeapSum(span: seq<nat>, h: seq<Weighted>): nat
  {
    if h == [] then 0 else Span(span, h[0].node) + HeapSum(span, h[1..])
  }

  lemma {:induction false} SumAppend(span: seq<nat>, a: seq<Weighted>, b: seq<Weighted>)
    ensures HeapSum(span, a + b) == HeapSum(span, a) + HeapSum(span, b)
    decreases |a|
  {
    if a == [] {
      assert a + b == b;
    } else {
      assert (a + b)[0] == a[0] && (a + b)[1..] == a[1..] + b;
      SumAppend(span, a[1..], b);
    }
  }

  lemma {:induction false} SumExtend(span: seq<nat>, h: seq<Weighted>, more: seq<nat>)
    requires forall i :: 0 <= i < |h| ==> h[i].node < |span|
    ensures HeapSum(span + more, h) == HeapSum(span, h)
    decreases |h|
  {
    if h != [] {
      assert (span + more)[h[0].node] == span[h[0].node];
      SumExtend(span, h[1..], more);
    }
  }

  lemma SumSingle(span: seq<nat>, e: Weighted)
    ensures HeapSum(span, [e]) == Span(span, e.node)
  {
    assert [e][1..] == [];
  }

  /** Nodes counting one leaf each. */
  lemma {:induction false} UnitSum(span: seq<nat>, h: seq<Weighted>)
    requires forall i :: 0 <= i < |h| ==> h[i].node < |span| && span[h[i].node] == 1
    ensures HeapSum(span, h) == |h|
    decreases |h|
  {
    if h != [] {
      assert h[0].node < |span|;
      UnitSum(span, h[1..]);
    }
  }

  function Removed(h: seq<Weighted>, i: nat): seq<Weighted>
    requires i < |h|
  {
    h[..i] + h[i + 1..]
  }

  predicate Distinct(h: seq<Weighted>)
  {
    forall i, j :: 0 <= i < j < |h| ==> h[i].node != h[j].node
  }

  predicate InHeap(h: seq<Weighted>, x: nat)
  {
    exists i :: 0 <= i < |h| && h[i].node == x
  }

  /** Where an element of a heap with one element popped comes from. */
  lemma RemovedAt(h: seq<Weighted>, i: nat, k: nat)
    requires i < |h| && k < |h| - 1
    ensures Removed(h, i)[k] == if k < i then h[k] else h[k + 1]
  {
  }

  /** Popping element i: the other nodes stay. */
  lemma Popped(h: seq<Weighted>, i: nat, bound: nat)
    requires i < |h| && Distinct(h) && forall k :: 0 <= k < |h| ==> h[k].node < bound
    ensures Distinct(Removed(h, i))
    ensures forall k :: 0 <= k < |h| - 1 ==> Removed(h, i)[k].node < bound && Removed(h, i)[k].node != h[i].node
    ensures forall x :: InHeap(h, x) ==> x == h[i].node || InHeap(Removed(h, i), x)
  {
    var r := Removed(h, i);
    forall k | 0 <= k < |r|
      ensures r[k].node < bound && r[k].node != h[i].node
    {
      RemovedAt(h, i, k);
    }
    forall k, l | 0 <= k < l < |r|
      ensures r[k].node != r[l].node
    {
      RemovedAt(h, i, k);
      RemovedAt(h, i, l);
    }
    forall x | InHeap(h, x) && x != h[i].node
      ensures InHeap(r, x)
    {
      var k :| 0 <= k < |h| && h[k].node == x;
      RemovedAt(h, i, if k < i then k else k - 1);
    }
  }

  /** Popping element i takes its leaves away from the heap's. */
  lemma PoppedSum(span: seq<nat>, h: seq<Weighted>, i: nat)
    requires i < |h|
    ensures HeapSum(span, h) == HeapSum(span, Removed(h, i)) + Span(span, h[i].node)
  {
    assert h == h[..i] + ([h[i]] + h[i + 1..]);
    SumAppend(span, h[..i], [h[i]] + h[i + 1..]);
    SumAppend(span, [h[i]], h[i + 1..]);
    SumSingle(span, h[i]);
    SumAppend(span, h[..i], h[i + 1..]);
  }

  /** huffmanParents entry x names the internal node whose child x is. */
  predicate Linked(parents: seq<Parent>, c: seq<nat>, n: nat, x: nat)
  {
    && x < |parents| && n <= parents[x].parent && x < parents[x].parent
    && 2 * (parents[x].parent - n) + 1 < |c|
    && c[2 * (parents[x].parent - n) + (if parents[x].bit then 1 else 0)] == x
  }

  /** The state of the merge loop after `index` merges: the heap holds the
      nodes without a parent yet, and all others are linked to theirs. */
  ghost predicate Merging(n: nat, index: nat, heap: seq<Weighted>, parents: seq<Parent>, c: seq<nat>, span: seq<nat>)
  {
    var holds :=
      && n >= 2 && |heap| + index == n && |parents| == 2 * n - 2 && |span| == n + index
      && Spans(span, c, n) && Distinct(heap)
      && (forall i :: 0 <= i < |heap| ==> heap[i].node < n + index)
      && (forall x :: 0 <= x < n + index ==> InHeap(heap, x) || Linked(parents, c, n, x));
    holds
  }

  /** The heap symbolHeap starts with: every symbol's weight at its leaf. */
  function Unmerged(weights: seq<nat>): seq<Weighted>
  {
    seq(|weights|, i requires 0 <= i < |weights| => Weighted(weights[i], i))
  }

  function Ones(n: nat): seq<nat>
  {
    seq(n, _ => 1)
  }

  lemma StartMerging(weights: seq<nat>)
    requires |weights| >= 2
    ensures Merging(|weights|, 0, Unmerged(weights), seq(2 * |weights| - 2, _ => Parent(0, false)), [], Ones(|weights|))
    ensures HeapSum(Ones(|weights|), Unmerged(weights)) == |weights|
  {
    var n, h := |weights|, Unmerged(weights);
    forall x | 0 <= x < n
      ensures InHeap(h, x)
    {
      assert h[x].node == x;
    }
    UnitSum(Ones(n), h);
  }

  /** Two pops from the heap: element i, then element j of what is left. */
  ghost predicate Pops(heap: seq<Weighted>, i: nat, heap1: seq<Weighted>, j: nat, heap2: seq<Weighted>)
  {
    var holds := i < |heap| && heap1 == Removed(heap, i) && j < |heap1| && heap2 == Removed(heap1, j);
    holds
  }

  /** One merge: the two popped nodes become the children of internal node
      n + index, which goes on the heap with their summed weight; the
      heap's trees still hold the same leaves. */
  lemma Merge(n: nat, index: nat, heap: seq<Weighted>, parents: seq<Parent>, c: seq<nat>, span: seq<nat>,
              i: nat, heap1: seq<Weighted>, j: nat, heap2: seq<Weighted>,
              heap': seq<Weighted>, parents': seq<Parent>, c': seq<nat>, span': seq<nat>)
    requires Merging(n, index, heap, parents, c, span) && |heap| >= 2 && Pops(heap, i, heap1, j, heap2)
    requires Unlinked(n, index, parents, c, span, heap[i].node, heap1[j].node, heap2)
    requires heap' == heap2 + [Weighted(heap[i].weight + heap1[j].weight, n + index)]
    requires parents' == parents[heap[i].node := Parent(n + index, false)][heap1[j].node := Parent(n + index, true)]
    requires c' == c + [heap[i].node, heap1[j].node] && span' == span + [span[heap[i].node] + span[heap1[j].node]]
    ensures Merging(n, index + 1, heap', parents', c', span')
  {
    MergedSpans(span, c, n, heap[i].node, heap1[j].node);
    MergeLinks(n, index, parents, c, span, heap[i].node, heap1[j].node, heap2, heap[i].weight + heap1[j].weight);
  }

  /** What the merge of a and b starts from: the heap without them, and
      every other node in it or linked. */
  ghost predicate Unlinked(n: nat, index: nat, parents: seq<Parent>, c: seq<nat>, span: seq<nat>, a: nat, b: nat, heap2: seq<Weighted>)
  {
    var holds :=
      && |c| == 2 * index && |parents| == 2 * n - 2 && |heap2| + index + 2 == n && |span| == n + index
      && a < n + index && b < n + index && a != b && Distinct(heap2)
      && (forall k :: 0 <= k < |heap2| ==> heap2[k].node < n + index && heap2[k].node != a && heap2[k].node != b)
      && (forall x :: 0 <= x < n + index ==> x == a || x == b || InHeap(heap2, x) || Linked(parents, c, n, x));
    holds
  }

  lemma TwoPops(n: nat, index: nat, heap: seq<Weighted>, parents: seq<Parent>, c: seq<nat>, span: seq<nat>,
                i: nat, heap1: seq<Weighted>, j: nat, heap2: seq<Weighted>)
    requires Merging(n, index, heap, parents, c, span) && |heap| >= 2 && Pops(heap, i, heap1, j, heap2)
    ensures Unlinked(n, index, parents, c, span, heap[i].node, heap1[j].node, heap2)
  {
    Popped(heap, i, n + index);
    Popped(heap1, j, n + index);
  }

  /** The links after a merge: the heap without the two popped nodes and
      with the new one, and the popped nodes linked to it. */
  lemma MergeLinks(n: nat, index: nat, parents: seq<Parent>, c: seq<nat>, span: seq<nat>, a: nat, b: nat, heap2: seq<Weighted>, w: nat)
    requires Unlinked(n, index, parents, c, span, a, b, heap2)
    requires Spans(span + [span[a] + span[b]], c + [a, b], n)
    ensures Merging(n, index + 1, heap2 + [Weighted(w, n + index)],
                    parents[a := Parent(n + index, false)][b := Parent(n + index, true)], c + [a, b], span + [span[a] + span[b]])
  {
    var p := n + index;
    var parents' := parents[a := Parent(p, false)][b := Parent(p, true)];
    var c' := c + [a, b];
    var heap' := heap2 + [Weighted(w, p)];
    assert c'[2 * index] == a && c'[2 * index + 1] == b;
    assert Linked(parents', c', n, a) && Linked(parents', c', n, b);
    forall k, l | 0 <= k < l < |heap'|
      ensures heap'[k].node != heap'[l].node
    {
      assert heap'[k] == heap2[k];
    }
    forall k | 0 <= k < |heap'|
      ensures heap'[k].node < p + 1
    {
      if k < |heap2| {
        assert heap'[k] == heap2[k];
      }
    }
    forall x | 0 <= x < p + 1
      ensures InHeap(heap', x) || Linked(parents', c', n, x)
    {
      if x == p {
        assert heap'[|heap2|].node == x;
      } else if InHeap(heap2, x) {
        var k :| 0 <= k < |heap2| && heap2[k].node == x;
        assert heap'[k].node == x;
      } else if x != a && x != b {
        assert Linked(parents, c, n, x);
        assert c'[2 * (parents[x].parent - n) + (if parents[x].bit then 1 else 0)] == x;
      }
    }
  }

  /** The leaf counts after a merge: the new node counts its two
      children's. */
  lemma MergedSpans(span: seq<nat>, c: seq<nat>, n: nat, a: nat, b: nat)
    requires Spans(span, c, n) && a < |span| && b < |span|
    ensures Spans(span + [span[a] + span[b]], c + [a, b], n)
  {
    var span', c' := span + [span[a] + span[b]], c + [a, b];
    var k := |span| - n;
    assert c'[2 * k] == a && c'[2 * k + 1] == b;
    forall i | 0 <= i < |c'|
      ensures c'[i] < n + i / 2
    {
      if i < |c| {
        assert c'[i] == c[i];
      }
    }
    forall x | n <= x < |span'|
      ensures span'[x] == Joint(span', c', n, x)
    {
      if x < |span| {
        assert c'[2 * (x - n)] == c[2 * (x - n)] && c'[2 * (x - n) + 1] == c[2 * (x - n) + 1];
        assert span[x] == Joint(span, c, n, x);
      }
    }
  }

  /** A merge keeps the number of leaves under the heap. */
  lemma MergedSum(n: nat, index: nat, heap: seq<Weighted>, parents: seq<Parent>, c: seq<nat>, span: seq<nat>,
                  i: nat, heap1: seq<Weighted>, j: nat, heap2: seq<Weighted>, heap': seq<Weighted>, span': seq<nat>)
    requires Merging(n, index, heap, parents, c, span) && |heap| >= 2 && Pops(heap, i, heap1, j, heap2)
    requires Unlinked(n, index, parents, c, span, heap[i].node, heap1[j].node, heap2)
    requires heap' == heap2 + [Weighted(heap[i].weight + heap1[j].weight, n + index)]
    requires span' == span + [span[heap[i].node] + span[heap1[j].node]]
    ensures HeapSum(span', heap') == HeapSum(span, heap)
  {
    var more := [span[heap[i].node] + span[heap1[j].node]];
    var top := Weighted(heap[i].weight + heap1[j].weight, n + index);
    PoppedSum(span, heap, i);
    PoppedSum(span, heap1, j);
    SumExtend(span, heap2, more);
    SumAppend(span', heap2, [top]);
    SumSingle(span', top);
  }

  /** When one node is left it is the root 2n - 2, holding all n leaves,
      and every other node is linked to its parent. */
  lemma FinishMerge(n: nat, keys: seq<Symbol>, index: nat, heap: seq<Weighted>, parents: seq<Parent>, c: seq<nat>, span: seq<nat>)
    requires Merging(n, index, heap, parents, c, span) && HeapSum(span, heap) == n && |heap| <= 1 && |keys| == n
    ensures |c| == 2 * n - 2 && Formed(c, n)
    ensures TreeAt(c, keys, n, 2 * n - 2).Some? && Leaves(TreeAt(c, keys, n, 2 * n - 2).value) == n
    ensures forall x :: 0 <= x < 2 * n - 2 ==> Linked(parents, c, n, x)
  {
    assert |heap| == 1;
    assert InHeap(heap, 2 * n - 2);
    assert heap[0].node == 2 * n - 2;
    assert heap == [heap[0]];
    SumSingle(span, heap[0]);
    SpanLeaves(span, c, keys, n, 2 * n - 2);
    forall x | 0 <= x < 2 * n - 2
      ensures Linked(parents, c, n, x)
    {
      assert !InHeap(heap, x);
    }
  }

  /** An element of least weight, which pop_front takes. */
  predicate Lightest(h: seq<Weighted>, i: nat)
  {
    i < |h| && forall j :: 0 <= j < |h| ==> h[i].weight <= h[j].weight
  }

  lemma {:induction false} LightestExists(h: seq<Weighted>) returns (i: nat)
    requires h != []
    ensures Lightest(h, i)
    decreases |h|
  {
    if |h| == 1 {
      i := 0;
    } else {
      var r := LightestExists(h[1..]);
      i := if h[0].weight <= h[r + 1].weight then 0 else r + 1;
      forall j | 0 <= j < |h|
        ensures h[i].weight <= h[j].weight
      {
        if j > 0 {
          assert h[j] == h[1..][j - 1];
        }
      }
    }
  }

  /** symbolHeap.pop_front: removes an element of least weight.  Which one
      among equal weights is BlobHeap's choice, left open here. */
  method PopLightest(h: seq<Weighted>) returns (top: Weighted, rest: seq<Weighted>, at: nat)
    requires h != []
    ensures Lightest(h, at) && top == h[at] && rest == Removed(h, at)
  {
    ghost var some := LightestExists(h);
    at :| at < |h| && Lightest(h, at);
    top, rest := h[at], Removed(h, at);
  }

  /** One round of the merge loop: the two lightest nodes become the
      zero- and the one-child of internal node n + index. */
  method MergeLightest(n: nat, index: nat, heap: seq<Weighted>, parents: seq<Parent>, children: seq<nat>, ghost span: seq<nat>)
    returns (heap': seq<Weighted>, parents': seq<Parent>, children': seq<nat>, ghost span': seq<nat>)
    requires Merging(n, index, heap, parents, children, span) && HeapSum(span, heap) == n && |heap| > 1
    ensures Merging(n, index + 1, heap', parents', children', span') && HeapSum(span', heap') == n
    ensures |heap'| == |heap| - 1
  {
    var a, heap1, i := PopLightest(heap);
    var b, heap2, j := PopLightest(heap1);
    var parent := n + index;
    TwoPops(n, index, heap, parents, children, span, i, heap1, j, heap2);
    parents' := parents[a.node := Parent(parent, false)][b.node := Parent(parent, true)];
    children' := children + [a.node, b.node];
    span' := span + [span[a.node] + span[b.node]];
    heap' := heap2 + [Weighted(a.weight + b.weight, parent)];
    Merge(n, index, heap, parents, children, span, i, heap1, j, heap2, heap', parents', children', span');
    MergedSum(n, index, heap, parents, children, span, i, heap1, j, heap2, heap', span');
  }

  /** The merge loop of encodeTree: n leaves weighted by the symbol
      counts; each round pops the two lightest nodes and makes them the
      zero- and the one-child of the next internal node.  The result is
      one tree at node 2n - 2 over all n leaves, with every other node
      linked to its parent. */
  method BuildTree(weights: seq<nat>, ghost keys: seq<Symbol>) returns (parents: seq<Parent>, children: seq<nat>)
    requires |weights| == |keys| >= 2
    ensures Built(parents, children, keys, |keys|)
    ensures TreeAt(children, keys, |keys|, 2 * |keys| - 2).Some?
    ensures Leaves(TreeAt(children, keys, |keys|, 2 * |keys| - 2).value) == |keys|
  {
    var n := |weights|;
    var heap := Unmerged(weights);
    parents := seq(2 * n - 2, _ => Parent(0, false));
    children := [];
    ghost var span := Ones(n);
    StartMerging(weights);
    var index := 0;
    while |heap| > 1
      invariant Merging(n, index, heap, parents, children, span)
      invariant HeapSum(span, heap) == n
      decreases |heap|
    {
      heap, parents, children, span := MergeLightest(n, index, heap, parents, children, span);
      index := index + 1;
    }
    FinishMerge(n, keys, index, heap, parents, children, span);
  }

  // ---------------------------------------------------------------------
  // The codes

  /** What the merge loop leaves: node 2n - 2 roots a tree over all n
      leaves and every other node is linked to its parent. */
  ghost predicate Built(parents: seq<Parent>, c: seq<nat>, keys: seq<Symbol>, n: nat)
  {
    && n >= 2 && |keys| == n && |c| == 2 * n - 2 && Formed(c, n) && |parents| == 2 * n - 2
    && (forall x :: 0 <= x < 2 * n - 2 ==> Linked(parents, c, n, x))
  }

  /** Every parent link goes to a larger node. */
  predicate Ascending(parents: seq<Parent>)
  {
    forall x :: 0 <= x < |parents| ==> x < parents[x].parent
  }

  lemma BuiltAscending(parents: seq<Parent>, c: seq<nat>, keys: seq<Symbol>, n: nat)
    requires Built(parents, c, keys, n)
    ensures Ascending(parents)
  {
    forall x | 0 <= x < |parents|
      ensures x < parents[x].parent
    {
      assert Linked(parents, c, n, x);
    }
  }

  /** The code of node x: the bits of the parent links from the root down
      to x, the root's own link first. */
  function Up(parents: seq<Parent>, x: nat): seq<bool>
    decreases if x < |parents| then |parents| - x else 0
  {
    if x < |parents| && x < parents[x].parent then Up(parents, parents[x].parent) + [parents[x].bit] else []
  }

  /** Following a node's code from the root reaches that node. */
  lemma {:induction false} UpDescends(parents: seq<Parent>, c: seq<nat>, keys: seq<Symbol>, n: nat, x: nat)
    requires Built(parents, c, keys, n) && x <= 2 * n - 2
    ensures TreeAt(c, keys, n, x).Some? && TreeAt(c, keys, n, 2 * n - 2).Some?
    ensures Descend(TreeAt(c, keys, n, 2 * n - 2).value, Up(parents, x)) == TreeAt(c, keys, n, x)
    decreases 2 * n - 2 - x
  {
    FormedTree(c, keys, n, n - 1, x);
    FormedTree(c, keys, n, n - 1, 2 * n - 2);
    if x < 2 * n - 2 {
      assert Linked(parents, c, n, x);
      var p := parents[x].parent;
      var root := TreeAt(c, keys, n, 2 * n - 2).value;
      UpDescends(parents, c, keys, n, p);
      DescendAppend(root, Up(parents, p), [parents[x].bit]);
      InternalAt(c, keys, n, p);
    }
  }

  /** The codes of the first i leaves, one after another: huffmanCodes. */
  function Codes(parents: seq<Parent>, i: nat): seq<bool>
  {
    if i == 0 then [] else Codes(parents, i - 1) + Up(parents, i - 1)
  }

  lemma {:induction false} CodesPrefix(parents: seq<Parent>, i: nat, j: nat)
    requires i <= j
    ensures |Codes(parents, i)| <= |Codes(parents, j)| && Codes(parents, j)[..|Codes(parents, i)|] == Codes(parents, i)
    decreases j
  {
    if i < j {
      CodesPrefix(parents, i, j - 1);
    }
  }

  /** Leaf i's code sits between the offsets of leaves i and i + 1. */
  /** Where leaf k's code starts in huffmanCodes. */
  function Offset(parents: seq<Parent>, k: nat): nat
  {
    |Codes(parents, k)|
  }

  lemma CodesSlice(parents: seq<Parent>, i: nat, j: nat)
    requires i < j
    ensures |Codes(parents, i)| <= |Codes(parents, i + 1)| <= |Codes(parents, j)|
    ensures Codes(parents, j)[|Codes(parents, i)|..|Codes(parents, i + 1)|] == Up(parents, i)
  {
    CodesPrefix(parents, i + 1, j);
    var a, b := Codes(parents, i), Codes(parents, i + 1);
    assert Codes(parents, j)[|a|..|b|] == b[|a|..];
  }

  /** The length loop of encodeTree: the number of links from leaf i up
      to the root. */
  method Depth(parents: seq<Parent>, i: nat) returns (length: nat)
    requires Ascending(parents)
    ensures length == |Up(parents, i)|
  {
    var index := i;
    length := 0;
    while index < |parents|
      invariant length + |Up(parents, index)| == |Up(parents, i)|
      decreases |parents| - index
    {
      index := parents[index].parent;
      length := length + 1;
    }
  }

  function Falses(n: nat): seq<bool>
  {
    seq(n, _ => false)
  }

  /** The write loop of encodeTree: makes room for leaf i's code at the
      end of the codes and fills it from its last bit, the leaf's own
      link, back to its first. */
  method WriteCode(parents: seq<Parent>, i: nat, codes: seq<bool>, length: nat) returns (codes': seq<bool>)
    requires Ascending(parents) && length == |Up(parents, i)|
    ensures codes' == codes + Up(parents, i)
  {
    codes' := codes + Falses(length);
    var end := |codes| + length;
    var index, reserve := i, 1;
    ghost var tail: seq<bool> := [];
    while index < |parents|
      invariant codes' == codes + Falses(|Up(parents, index)|) + tail
      invariant Up(parents, index) + tail == Up(parents, i) && reserve == |tail| + 1
      decreases |parents| - index
    {
      var node := parents[index];
      assert Up(parents, index) == Up(parents, node.parent) + [node.bit];
      codes' := codes'[end - reserve := node.bit];
      index := node.parent;
      tail := [node.bit] + tail;
      reserve := reserve + 1;
    }
  }

  /** One round of the code loop: leaf i's offset, then its code. */
  method AssignCode(parents: seq<Parent>, m: seq<Entry>, codes: seq<bool>, i: nat) returns (m': seq<Entry>, codes': seq<bool>)
    requires Ascending(parents) && i < |m|
    ensures m' == m[i := Entry(m[i].key, |codes|)] && codes' == codes + Up(parents, i)
  {
    var length := Depth(parents, i);
    m' := m[i := Entry(m[i].key, |codes|)];
    codes' := WriteCode(parents, i, codes, length);
  }

  /** The code loop of encodeTree: leaf i's offset in huffmanCodes goes
      into pair i of the symbol map in place of its count, and its code
      after the codes before it. */
  method AssignCodes(parents: seq<Parent>, m: seq<Entry>) returns (m': seq<Entry>, codes: seq<bool>)
    requires Ascending(parents)
    ensures |m'| == |m| && codes == Codes(parents, |m|)
    ensures forall i :: 0 <= i < |m| ==> m'[i] == Entry(m[i].key, Offset(parents, i))
  {
    m', codes := m, [];
    var i := 0;
    while i < |m|
      invariant i <= |m| == |m'| && codes == Codes(parents, i)
      invariant forall k :: 0 <= k < i ==> m'[k] == Entry(m[k].key, Offset(parents, k))
      invariant forall k :: i <= k < |m| ==> m'[k] == m[k]
    {
      m', codes := AssignCode(parents, m', codes, i);
      assert Offset(parents, i) == |Codes(parents, i)|;
      i := i + 1;
    }
  }

  /** Where pair i's code ends: at the next pair's offset, or at the end
      of the codes for the last pair. */
  function CodeEnd(m: seq<Entry>, codes: seq<bool>, i: nat): nat
  {
    if i + 1 < |m| then m[i + 1].value else |codes|
  }

  /** Every pair's code, from its offset to where it ends, leads from the
      root of t to the pair's symbol. */
  ghost predicate Coded(m: seq<Entry>, codes: seq<bool>, t: Tree)
  {
    forall i :: 0 <= i < |m| ==>
      m[i].value <= CodeEnd(m, codes, i) <= |codes| && Descend(t, codes[m[i].value..CodeEnd(m, codes, i)]) == Some(Leaf(m[i].key))
  }

  /** Pair i's code: from its offset to where it ends. */
  function CodeOf(m: seq<Entry>, codes: seq<bool>, i: nat): seq<bool>
    requires i < |m|
  {
    if m[i].value <= CodeEnd(m, codes, i) <= |codes| then codes[m[i].value..CodeEnd(m, codes, i)] else []
  }

  /** The code of every symbol of the map; none while fewer than two
      symbols were counted, for a single leaf needs no bits. */
  function CodeMap(m: seq<Entry>, codes: seq<bool>): map<Symbol, seq<bool>>
    requires Increasing(m)
  {
    map i | 0 <= i < |m| :: m[i].key := if |m| < 2 then [] else CodeOf(m, codes, i)
  }

  /** The code map has exactly the counted symbols, and leads each of
      them to its leaf. */
  lemma CodeMapCodes(m: seq<Entry>, codes: seq<bool>, t: Tree)
    requires Increasing(m)
    requires |m| >= 2 ==> Coded(m, codes, t)
    requires |m| == 1 ==> t == Leaf(m[0].key)
    ensures forall s :: s in CodeMap(m, codes) <==> Counted(m, s)
    ensures CodesOf(t, CodeMap(m, codes))
  {
    var code := CodeMap(m, codes);
    forall s | s in code
      ensures Counted(m, s) && Descend(t, code[s]) == Some(Leaf(s))
    {
      var i :| 0 <= i < |m| && m[i].key == s;
      CodeMapAt(m, codes, i);
    }
    forall s | Counted(m, s)
      ensures s in code
    {
      var i :| 0 <= i < |m| && m[i].key == s;
      CodeMapAt(m, codes, i);
    }
  }

  lemma CodeMapAt(m: seq<Entry>, codes: seq<bool>, i: nat)
    requires Increasing(m) && i < |m|
    ensures m[i].key in CodeMap(m, codes)
    ensures CodeMap(m, codes)[m[i].key] == if |m| < 2 then [] else CodeOf(m, codes, i)
  {
    assert forall j :: 0 <= j < |m| && m[j].key == m[i].key ==> j == i;
  }

  /** The symbols of a map, in its order. */
  function Keys(m: seq<Entry>): seq<Symbol>
  {
    seq(|m|, i requires 0 <= i < |m| => m[i].key)
  }

  /** The counts of a map, in its order. */
  function Weights(m: seq<Entry>): seq<nat>
  {
    seq(|m|, i requires 0 <= i < |m| => m[i].value)
  }

  /** The offsets AssignCodes leaves in the map locate every symbol's
      code in the tree the merge loop built. */
  lemma CodedLeaves(parents: seq<Parent>, c: seq<nat>, keys: seq<Symbol>, n: nat, m: seq<Entry>, codes: seq<bool>, t: Tree)
    requires Built(parents, c, keys, n) && TreeAt(c, keys, n, 2 * n - 2) == Some(t)
    requires |m| == n && codes == Codes(parents, n)
    requires forall i :: 0 <= i < n ==> m[i] == Entry(keys[i], Offset(parents, i))
    ensures Coded(m, codes, t)
  {
    forall i | 0 <= i < n
      ensures m[i].value <= CodeEnd(m, codes, i) <= |codes|
      ensures Descend(t, codes[m[i].value..CodeEnd(m, codes, i)]) == Some(Leaf(m[i].key))
    {
      CodesSlice(parents, i, n);
      assert CodeEnd(m, codes, i) == |Codes(parents, i + 1)|;
      UpDescends(parents, c, keys, n, i);
    }
  }

  // ---------------------------------------------------------------------
  // The tree stream

  /** An element of encodeTree's stack: a node and how far its stream has
      got; 0 and 1 name the child to visit next, 2 that only the node's
      own 0 is left, and 3 marks a leaf. */
  datatype Frame = Frame(index: nat, state: nat)

  /** A stack element as the proof sees it: the subtree at its node and
      its state. */
  datatype Task = Task(tree: Tree, state: nat)

  /** The tokens a stack element has still to write. */
  function Pending(w: Task): seq<nat>
  {
    if w.state == 1 && w.tree.Node? then PostOrder(w.tree.one) + [0]
    else if w.state == 2 then [0]
    else PostOrder(w.tree)
  }

  /** The tokens the whole stack has still to write, the top's first. */
  function Rest(work: seq<Task>): seq<nat>
    decreases |work|
  {
    if work == [] then [] else Pending(work[|work| - 1]) + Rest(work[..|work| - 1])
  }

  /** A stack element names a node of the tree, with the task's subtree
      and state; a leaf is in state 3, an internal node in 0, 1 or 2. */
  predicate FrameOK(c: seq<nat>, keys: seq<Symbol>, n: nat, f: Frame, w: Task)
  {
    && TreeAt(c, keys, n, f.index) == Some(w.tree) && f.state == w.state
    && (if f.index < n then f.state == 3 else f.state <= 2)
  }

  ghost predicate Framed(c: seq<nat>, keys: seq<Symbol>, n: nat, stack: seq<Frame>, work: seq<Task>)
  {
    |stack| == |work| && forall i :: 0 <= i < |stack| ==> FrameOK(c, keys, n, stack[i], work[i])
  }

  lemma PostOrderNonEmpty(t: Tree)
    ensures |PostOrder(t)| >= 1
  {
  }

  /** Every element of the stack has a token left to write. */
  lemma {:induction false} RestLength(work: seq<Task>)
    ensures |Rest(work)| >= |work|
    decreases |work|
  {
    if work != [] {
      var w := work[|work| - 1];
      PostOrderNonEmpty(w.tree);
      if w.tree.Node? {
        PostOrderNonEmpty(w.tree.one);
      }
      RestLength(work[..|work| - 1]);
    }
  }

  lemma AppendAssoc(a: seq<nat>, b: seq<nat>, d: seq<nat>)
    ensures a + (b + d) == (a + b) + d
  {
  }

  /** The stack below its top writes after the top. */
  lemma RestPush(below: seq<Task>, w: Task)
    ensures Rest(below + [w]) == Pending(w) + Rest(below)
  {
    assert (below + [w])[..|below|] == below;
  }

  lemma FramedPush(c: seq<nat>, keys: seq<Symbol>, n: nat, below: seq<Frame>, f: Frame, work: seq<Task>, w: Task)
    ensures Framed(c, keys, n, below + [f], work + [w]) <==> Framed(c, keys, n, below, work) && FrameOK(c, keys, n, f, w)
  {
    if Framed(c, keys, n, below + [f], work + [w]) {
      assert FrameOK(c, keys, n, (below + [f])[|below|], (work + [w])[|work|]);
      forall i | 0 <= i < |below|
        ensures FrameOK(c, keys, n, below[i], work[i])
      {
        assert (below + [f])[i] == below[i] && (work + [w])[i] == work[i];
      }
    }
  }

  /** States 0 and 1: the top moves on, and the child it names goes on
      the stack; what is left to write stays the same. */
  lemma Visit(c: seq<nat>, keys: seq<Symbol>, n: nat, f: Frame, w: Task)
    requires FrameOK(c, keys, n, f, w) && f.state <= 1
    ensures f.index >= n && 2 * (f.index - n) + 1 < |c| && w.tree.Node?
    ensures var child := c[2 * (f.index - n) + f.state];
      && FrameOK(c, keys, n, Frame(f.index, f.state + 1), Task(w.tree, w.state + 1))
      && FrameOK(c, keys, n, Frame(child, if child < n then 3 else 0),
                 Task(if f.state == 0 then w.tree.zero else w.tree.one, if child < n then 3 else 0))
      && Pending(Task(if f.state == 0 then w.tree.zero else w.tree.one, if child < n then 3 else 0))
         + Pending(Task(w.tree, w.state + 1)) == Pending(w)
  {
    InternalAt(c, keys, n, f.index);
  }

  /** Visit on the whole stack: the top is replaced by its next state
      and the child pushed above it. */
  lemma VisitStep(c: seq<nat>, keys: seq<Symbol>, n: nat, below: seq<Frame>, f: Frame, work: seq<Task>, w: Task)
    requires Framed(c, keys, n, below + [f], work + [w]) && f.state <= 1
    ensures f.index >= n && 2 * (f.index - n) + 1 < |c| && w.tree.Node?
    ensures var child := c[2 * (f.index - n) + f.state];
      var top := Frame(child, if child < n then 3 else 0);
      var task := Task(if f.state == 0 then w.tree.zero else w.tree.one, top.state);
      && Framed(c, keys, n, below + [Frame(f.index, f.state + 1)] + [top], work + [Task(w.tree, w.state + 1)] + [task])
      && Rest(work + [Task(w.tree, w.state + 1)] + [task]) == Rest(work + [w])
  {
    FramedPush(c, keys, n, below, f, work, w);
    Visit(c, keys, n, f, w);
    var child := c[2 * (f.index - n) + f.state];
    var top := Frame(child, if child < n then 3 else 0);
    var task := Task(if f.state == 0 then w.tree.zero else w.tree.one, top.state);
    var next, w' := Frame(f.index, f.state + 1), Task(w.tree, w.state + 1);
    FramedPush(c, keys, n, below, next, work, w');
    FramedPush(c, keys, n, below + [next], top, work + [w'], task);
    RestPush(work, w);
    RestPush(work, w');
    RestPush(work + [w'], task);
    AppendAssoc(Pending(task), Pending(w'), Rest(work));
  }

  /** States 2 and 3: the top is done and writes its last token, a leaf
      its symbol + 1. */
  lemma LeaveStep(c: seq<nat>, keys: seq<Symbol>, n: nat, below: seq<Frame>, f: Frame, work: seq<Task>, w: Task)
    requires Framed(c, keys, n, below + [f], work + [w]) && f.state >= 2
    ensures f.state <= 3 && (f.state == 3 ==> f.index < |keys|)
    ensures Framed(c, keys, n, below, work)
    ensures Rest(work + [w]) == [if f.state == 2 then 0 else keys[f.index] + 1] + Rest(work)
  {
    FramedPush(c, keys, n, below, f, work, w);
    RestPush(work, w);
    assert FrameOK(c, keys, n, f, w);
    if f.state == 3 {
      assert f.index < n && f.index < |keys|;
      assert w.tree == Leaf(keys[f.index]);
      assert Pending(w) == [keys[f.index] + 1];
    } else {
      assert Pending(w) == [0];
    }
  }

  /** One round of the stack loop of encodeTree. */
  method EmitStep(c: seq<nat>, keys: seq<Symbol>, n: nat, stack: seq<Frame>, ghost work: seq<Task>)
    returns (stack': seq<Frame>, token: seq<nat>, ghost work': seq<Task>)
    requires Framed(c, keys, n, stack, work) && stack != []
    ensures Framed(c, keys, n, stack', work') && token + Rest(work') == Rest(work)
    ensures |stack'| + 2 * |token| == |stack| + 1
  {
    var below, element := stack[..|stack| - 1], stack[|stack| - 1];
    ghost var rest, w := work[..|work| - 1], work[|work| - 1];
    assert stack == below + [element] && work == rest + [w];
    if element.state <= 1 {
      VisitStep(c, keys, n, below, element, rest, w);
      var index := c[2 * (element.index - n) + element.state];
      var top := Frame(index, if index < n then 3 else 0);
      stack', token := below + [Frame(element.index, element.state + 1)] + [top], [];
      work' := rest + [Task(w.tree, w.state + 1)] + [Task(if element.state == 0 then w.tree.zero else w.tree.one, top.state)];
    } else if element.state == 2 {
      LeaveStep(c, keys, n, below, element, rest, w);
      stack', token, work' := below, [0], rest;
    } else {
      LeaveStep(c, keys, n, below, element, rest, w);
      token := [keys[element.index] + 1];
      stack', work' := below, rest;
    }
  }

  /** The stack of encodeTree at the start: the root, in state 0, has its
      whole stream to write. */
  lemma StartEmit(c: seq<nat>, keys: seq<Symbol>, n: nat, root: Tree)
    requires n >= 2 && TreeAt(c, keys, n, 2 * n - 2) == Some(root)
    ensures Framed(c, keys, n, [Frame(2 * n - 2, 0)], [Task(root, 0)])
    ensures [] + Rest([Task(root, 0)]) == PostOrder(root)
  {
    var w := Task(root, 0);
    assert FrameOK(c, keys, n, Frame(2 * n - 2, 0), w);
    assert [w][..0] == [];
    assert Rest([w]) == Pending(w) + Rest([]);
  }

  /** The stack loop of encodeTree: streams the tree at node 2n - 2
      post-order, a leaf as its symbol + 1 and an internal node as 0. */
  method EmitTree(c: seq<nat>, keys: seq<Symbol>, n: nat) returns (out: seq<nat>)
    requires n >= 2 && TreeAt(c, keys, n, 2 * n - 2).Some?
    ensures out == PostOrder(TreeAt(c, keys, n, 2 * n - 2).value)
  {
    var stack := [Frame(2 * n - 2, 0)];
    ghost var root := TreeAt(c, keys, n, 2 * n - 2).value;
    ghost var work := [Task(root, 0)];
    out := [];
    StartEmit(c, keys, n, root);
    while stack != []
      invariant Framed(c, keys, n, stack, work)
      invariant out + Rest(work) == PostOrder(root)
      decreases 2 * |Rest(work)| - |stack|
    {
      RestLength(work);
      var token;
      stack, token, work := EmitStep(c, keys, n, stack, work);
      AppendAssoc(out, token, Rest(work));
      out := out + token;
    }
  }

  // ---------------------------------------------------------------------
  // encodeTree and encodeSymbol

  /** Two maps with the same symbols in the same order. */
  predicate SameKeys(m: seq<Entry>, m': seq<Entry>)
  {
    |m| == |m'| && forall i :: 0 <= i < |m| ==> m'[i].key == m[i].key
  }

  /** Replacing the counts keeps the map's order and its symbols. */
  lemma KeysKept(m: seq<Entry>, m': seq<Entry>)
    requires SameKeys(m, m')
    ensures Keys(m') == Keys(m)
    ensures Increasing(m) ==> Increasing(m')
    ensures forall x :: Counted(m', x) <==> Counted(m, x)
  {
    forall x | Counted(m, x)
      ensures Counted(m', x)
    {
      var i :| 0 <= i < |m| && m[i].key == x;
      assert m'[i].key == x;
    }
  }

  /** What encodeTree does for two symbols or more: merges the nodes,
      puts every symbol's code offset in place of its count, and streams
      the tree. */
  method EncodeNodes(m: seq<Entry>) returns (m': seq<Entry>, codes: seq<bool>, stream: seq<nat>, ghost tree: Tree)
    requires |m| >= 2
    ensures SameKeys(m, m')
    ensures tree.Node? && Leaves(tree) == |m| && stream == PostOrder(tree) && Coded(m', codes, tree)
  {
    var keys := Keys(m);
    var n := |keys|;
    var parents, children := BuildTree(Weights(m), keys);
    tree := TreeAt(children, keys, n, 2 * n - 2).value;
    NodeLeaves(tree);
    BuiltAscending(parents, children, keys, n);
    m', codes := AssignCodes(parents, m);
    KeysKept(m, m');
    CodedLeaves(parents, children, keys, n, m', codes, tree);
    stream := EmitTree(children, keys, n);
  }

  /** The body of encodeSymbol for two symbols or more: the code of pair
      `index` runs from its offset to the next pair's, or to the end of
      the codes; it goes into the blob at the offset. */
  method InsertCode(m: seq<Entry>, codes: seq<bool>, ghost t: Tree, blob: seq<bool>, offset: nat, index: nat)
    returns (blob': seq<bool>, offset': nat)
    requires Coded(m, codes, t) && 2 <= |m| && index < |m| && offset <= |blob|
    ensures offset' == offset + |CodeOf(m, codes, index)|
    ensures blob' == blob[..offset] + CodeOf(m, codes, index) + blob[offset..]
  {
    var begin := m[index].value;
    var length := (if index + 1 < |m| then m[index + 1].value else |codes|) - begin;
    blob' := blob[..offset] + codes[begin..begin + length] + blob[offset..];
    offset' := offset + length;
  }

  /** Decoding from where a code was inserted reads that code's symbol. */
  lemma WalkInserted(t: Tree, code: seq<bool>, blob: seq<bool>, offset: nat, s: Symbol)
    requires Descend(t, code) == Some(Leaf(s)) && offset <= |blob|
    ensures Walk(t, (blob[..offset] + code + blob[offset..])[offset..]) == Some((s, |code|))
  {
    assert (blob[..offset] + code + blob[offset..])[offset..] == code + blob[offset..];
    WalkCode(t, code, blob[offset..], s);
  }

  /** StaticHuffmanEncoder: the blob it writes to, the symbol map from
      symbol to count and later to code offset, and the codes.  The
      naturals encodeBvlNatural writes are kept as their own stream
      `tokens`; the ghost `tree` is the tree encodeTree built. */
  class Encoder {
    var tokens: seq<nat>
    var blob: seq<bool>
    var offset: nat
    var symbolCount: nat
    var symbolMap: seq<Entry>
    var huffmanCodes: seq<bool>
    ghost var tree: Option<Tree>

    constructor (tokens: seq<nat>, blob: seq<bool>, offset: nat)
      ensures this.tokens == tokens && this.blob == blob && this.offset == offset
      ensures symbolCount == 0 && symbolMap == [] && huffmanCodes == [] && tree == None
    {
      this.tokens, this.blob, this.offset := tokens, blob, offset;
      symbolCount, symbolMap, huffmanCodes, tree := 0, [], [], None;
    }

    /** The symbol map is a BlobSet: ordered by symbol. */
    ghost predicate Valid()
      reads this
    {
      Increasing(symbolMap)
    }

    /** encodeTree has run: the tree holds the single symbol, or every
        symbol's code leads to its leaf. */
    ghost predicate Ready()
      reads this`symbolMap, this`symbolCount, this`huffmanCodes, this`tree
    {
      && Increasing(symbolMap) && symbolCount == |symbolMap|
      && (symbolCount == 0 ==> tree == None)
      && (symbolCount == 1 ==> tree == Some(Leaf(symbolMap[0].key)))
      && (symbolCount >= 2 ==> tree.Some? && Coded(symbolMap, huffmanCodes, tree.value))
    }

    /** countSymbol: one more occurrence of the symbol. */
    method CountSymbol(symbol: Symbol)
      requires Valid()
      modifies this
      ensures Valid()
      ensures forall x :: Count(symbolMap, x) == Count(old(symbolMap), x) + (if x == symbol then 1 else 0)
      ensures forall x :: Counted(symbolMap, x) <==> Counted(old(symbolMap), x) || x == symbol
      ensures tokens == old(tokens) && blob == old(blob) && offset == old(offset)
      ensures symbolCount == old(symbolCount) && huffmanCodes == old(huffmanCodes) && tree == old(tree)
    {
      symbolMap := Tally(symbolMap, symbol);
    }

    /** encodeTree: writes the symbol count and then the single symbol or
        the tree's post-order stream, and prepares the codes. */
    method EncodeTree()
      requires Valid()
      modifies this
      ensures Ready() && SameKeys(old(symbolMap), symbolMap)
      ensures tree.None? ==> tokens == old(tokens) + [0]
      ensures tree.Some? ==> tokens == old(tokens) + TreeStream(tree.value) && Leaves(tree.value) == symbolCount
      ensures blob == old(blob) && offset == old(offset)
    {
      var count := |symbolMap|;
      if count < 2 {
        if count == 1 {
          tokens, tree := tokens + [count, symbolMap[0].key], Some(Leaf(symbolMap[0].key));
        } else {
          tokens, tree := tokens + [count], None;
        }
        symbolCount := count;
        return;
      }
      var m, codes, stream, t := EncodeNodes(symbolMap);
      KeysKept(symbolMap, m);
      assert TreeStream(t) == [count] + stream;
      symbolCount, symbolMap, huffmanCodes, tree, tokens := count, m, codes, Some(t), tokens + ([count] + stream);
    }

    /** The code of every counted symbol. */
    ghost function CodeTable(): map<Symbol, seq<bool>>
      requires Valid()
      reads this
    {
      CodeMap(symbolMap, huffmanCodes)
    }

    /** encodeSymbol: inserts the symbol's code into the blob at the
        offset and moves the offset past it; a single symbol takes no
        bits.  Decoding from the old offset reads the symbol back.  A
        symbol never counted breaks the source's assertion. */
    method EncodeSymbol(symbol: Symbol) returns (r: Result<()>)
      requires Ready() && offset <= |blob|
      modifies this`blob, this`offset
      ensures Ready()
      ensures tokens == old(tokens) && symbolCount == old(symbolCount) && symbolMap == old(symbolMap)
      ensures huffmanCodes == old(huffmanCodes) && tree == old(tree)
      ensures !Counted(symbolMap, symbol) ==> r == Fail(Uncounted) && blob == old(blob) && offset == old(offset)
      ensures Counted(symbolMap, symbol) ==>
        && r == Ok(()) && tree.Some? && symbol in CodeTable()
        && offset == old(offset) + |CodeTable()[symbol]|
        && blob == old(blob)[..old(offset)] + CodeTable()[symbol] + old(blob)[old(offset)..]
        && Walk(tree.value, blob[old(offset)..]) == Some((symbol, offset - old(offset)))
    {
      var found, index := Locate(symbolMap, symbol);
      if !found {
        return Fail(Uncounted);
      }
      CodeMapAt(symbolMap, huffmanCodes, index);
      if symbolCount < 2 {
        CodeMapCodes(symbolMap, huffmanCodes, tree.value);
        return Ok(());
      }
      CodeMapCodes(symbolMap, huffmanCodes, tree.value);
      ghost var code := CodeTable()[symbol];
      WalkInserted(tree.value, code, blob, offset, symbol);
      blob, offset := InsertCode(symbolMap, huffmanCodes, tree.value, blob, offset, index);
      r := Ok(());
    }

    /** The round trip: the codes of a run of counted symbols, one after
        another, decode to that run, whatever bits follow. */
    lemma Decodes(symbols: seq<Symbol>, rest: seq<bool>)
      requires Ready() && tree.Some? && forall s :: s in symbols ==> Counted(symbolMap, s)
      ensures forall s :: s in symbols ==> s in CodeTable()
      ensures WalkAll(tree.value, Encoded(CodeTable(), symbols) + rest, |symbols|) == Some(symbols)
    {
      CodeMapCodes(symbolMap, huffmanCodes, tree.value);
      RoundTrip(tree.value, CodeTable(), symbols, rest);
    }
  }
}
