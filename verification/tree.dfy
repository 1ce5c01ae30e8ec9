/** The Huffman tree and the priority queue it is built with. */
module HuffmanTree {
  import opened Frequency

  /** A leaf holds a symbol and its count; an internal node holds two
      subtrees and the sum of their frequencies. */
  datatype Tree = Leaf(sym: char, freq: nat) | Node(left: Tree, right: Tree, freq: nat)

  /** The leaf symbols of `t`, with multiplicity. */
  function Syms(t: Tree): multiset<char> {
    match t
    case Leaf(c, _) => multiset{c}
    case Node(l, r, _) => Syms(l) + Syms(r)
  }

  /** Every internal node's frequency is the sum of its children's. */
  ghost predicate WellFormed(t: Tree) {
    match t
    case Leaf(_, _) => true
    case Node(l, r, f) => f == l.freq + r.freq && WellFormed(l) && WellFormed(r)
  }

  /** No symbol labels two leaves. */
  ghost predicate DistinctLeaves(t: Tree) {
    forall c :: Syms(t)[c] <= 1
  }

  /** The sum of the frequencies of the queued nodes. */
  function QTotal(q: seq<Tree>): nat {
    if |q| == 0 then 0 else QTotal(q[..|q| - 1]) + q[|q| - 1].freq
  }

  /** The leaf symbols of all queued nodes, with multiplicity. */
  function QSyms(q: seq<Tree>): multiset<char> {
    if |q| == 0 then multiset{} else QSyms(q[..|q| - 1]) + Syms(q[|q| - 1])
  }

  ghost predicate AllWellFormed(q: seq<Tree>) {
    forall i :: 0 <= i < |q| ==> WellFormed(q[i])
  }

  lemma {:induction false} QueueConcat(a: seq<Tree>, b: seq<Tree>)
    ensures QTotal(a + b) == QTotal(a) + QTotal(b)
    ensures QSyms(a + b) == QSyms(a) + QSyms(b)
  {
    if |b| > 0 {
      var b' := b[..|b| - 1];
      assert (a + b)[..|a + b| - 1] == a + b';
      QueueConcat(a, b');
    } else {
      assert a + b == a;
    }
  }

  /** The queue without its `i`-th node, the others in their order. */
  function RemoveAt(q: seq<Tree>, i: nat): (r: seq<Tree>)
    requires i < |q|
    ensures |r| == |q| - 1
    ensures QTotal(r) + q[i].freq == QTotal(q)
    ensures QSyms(r) + Syms(q[i]) == QSyms(q)
    ensures forall t :: t in r ==> t in q
  {
    var r := q[..i] + q[i + 1..];
    assert q == q[..i] + [q[i]] + q[i + 1..];
    QueueConcat(q[..i], [q[i]]);
    QueueConcat(q[..i] + [q[i]], q[i + 1..]);
    QueueConcat(q[..i], q[i + 1..]);
    assert QTotal([q[i]]) == q[i].freq && QSyms([q[i]]) == Syms(q[i]) by {
      assert [q[i]][..0] == [];
    }
    r
  }

  /** The position `heappop` takes from: the earliest queued node of least
      frequency, which is the least node in (frequency, insertion) order. */
  function MinIndex(q: seq<Tree>): (i: nat)
    requires |q| > 0
    ensures i < |q|
    ensures forall k :: 0 <= k < |q| ==> q[i].freq <= q[k].freq
    ensures forall k :: 0 <= k < i ==> q[i].freq < q[k].freq
  {
    if |q| == 1 then 0
    else
      var m := MinIndex(q[..|q| - 1]);
      if q[|q| - 1].freq < q[m].freq then |q| - 1 else m
  }

  /** One turn of the merge loop, for any pair of popped positions: take
      the node at `i`, then the node at `j` of what is left, and push their
      parent, whose frequency is the sum of theirs, at the back. */
  function MergeStep(q: seq<Tree>, i: nat, j: nat): (r: seq<Tree>)
    requires i < |q| && j < |q| - 1
    ensures |r| == |q| - 1
  {
    var a := q[i];
    var q1 := RemoveAt(q, i);
    var b := q1[j];
    RemoveAt(q1, j) + [Node(a, b, a.freq + b.freq)]
  }

  /** Whatever two nodes a merge step pops, the queue shrinks by one, its
      total frequency and its leaf symbols stay the same, and every node
      stays well formed. */
  lemma {:induction false} MergeStepPreserves(q: seq<Tree>, i: nat, j: nat)
    requires i < |q| && j < |q| - 1
    ensures QTotal(MergeStep(q, i, j)) == QTotal(q)
    ensures QSyms(MergeStep(q, i, j)) == QSyms(q)
    ensures AllWellFormed(q) ==> AllWellFormed(MergeStep(q, i, j))
  {
    var a := q[i];
    var q1 := RemoveAt(q, i);
    var b := q1[j];
    var q2 := RemoveAt(q1, j);
    var n := Node(a, b, a.freq + b.freq);
    assert MergeStep(q, i, j) == q2 + [n];
    PushBack(q2, n);
    if AllWellFormed(q) {
      MergeStepWellFormed(q, i, j);
    }
  }

  /** Pushing a node adds its frequency and its leaf symbols to the queue's. */
  lemma {:induction false} PushBack(q: seq<Tree>, n: Tree)
    ensures QTotal(q + [n]) == QTotal(q) + n.freq
    ensures QSyms(q + [n]) == QSyms(q) + Syms(n)
  {
    assert (q + [n])[..|q|] == q;
  }

  lemma {:induction false} MergeStepWellFormed(q: seq<Tree>, i: nat, j: nat)
    requires i < |q| && j < |q| - 1
    requires AllWellFormed(q)
    ensures AllWellFormed(MergeStep(q, i, j))
  {
    var q1 := RemoveAt(q, i);
    assert AllWellFormed(q1) by {
      forall k | 0 <= k < |q1| ensures WellFormed(q1[k]) {
        assert q1[k] in q;
      }
    }
    var q2 := RemoveAt(q1, j);
    assert AllWellFormed(q2) by {
      forall k | 0 <= k < |q2| ensures WellFormed(q2[k]) {
        assert q2[k] in q1;
      }
    }
    var r := MergeStep(q, i, j);
    forall k | 0 <= k < |r| ensures WellFormed(r[k]) {
      if k < |q2| {
        assert r[k] == q2[k];
      }
    }
  }

  /** The leaves pushed by the heap-building loop: one per key of the
      dictionary, in insertion order, each carrying its key's count. */
  function BuildHeap(order: seq<char>, count: map<char, nat>): (q: seq<Tree>)
    requires forall k :: k in order ==> k in count
    ensures |q| == |order|
    ensures QSyms(q) == multiset(order)
    ensures QTotal(q) == SumCounts(order, count)
    ensures forall i :: 0 <= i < |q| ==> q[i] == Leaf(order[i], count[order[i]])
  {
    if |order| == 0 then []
    else
      var init := order[..|order| - 1];
      var k := order[|order| - 1];
      assert order == init + [k];
      var q := BuildHeap(init, count) + [Leaf(k, count[k])];
      assert q[..|q| - 1] == BuildHeap(init, count);
      q
  }

  /** A freshly built heap holds only leaves, which are well formed. */
  lemma {:induction false} HeapWellFormed(order: seq<char>, count: map<char, nat>)
    requires forall k :: k in order ==> k in count
    ensures AllWellFormed(BuildHeap(order, count))
  {
    var q := BuildHeap(order, count);
    forall k | 0 <= k < |q| ensures WellFormed(q[k]) {
      assert q[k] == Leaf(order[k], count[order[k]]);
    }
  }

  /** The merge loop: while more than one node is queued, pop the two least
      nodes and push their parent. It ends with at most one node, and with
      exactly one if it started with any; the total frequency, the leaf
      symbols and well-formedness are kept throughout. */
  function BuildTree(q: seq<Tree>): (r: seq<Tree>)
    ensures |r| == (if |q| == 0 then 0 else 1)
    ensures QTotal(r) == QTotal(q)
    ensures QSyms(r) == QSyms(q)
    ensures AllWellFormed(q) ==> AllWellFormed(r)
    decreases |q|
  {
    if |q| <= 1 then q
    else
      var i := MinIndex(q);
      var j := MinIndex(RemoveAt(q, i));
      MergeStepPreserves(q, i, j);
      BuildTree(MergeStep(q, i, j))
  }

  lemma {:induction false} DistinctMultiset(s: seq<char>)
    requires Distinct(s)
    ensures forall c :: multiset(s)[c] <= 1
  {
    if |s| > 0 {
      var init := s[..|s| - 1];
      assert s == init + [s[|s| - 1]];
      DistinctMultiset(init);
      assert s[|s| - 1] !in init by {
        forall i | 0 <= i < |init| ensures init[i] != s[|s| - 1] {
          assert init[i] == s[i];
        }
      }
    }
  }

  /** The tree the source builds from a text: the single node left by the
      merge loop, or nothing for an empty text. */
  function TreeOf(text: string): (r: seq<Tree>)
    ensures |r| == (if |text| == 0 then 0 else 1)
  {
    var d := MakeFrequencyDic(text);
    var q := BuildHeap(d.order, d.count);
    assert |d.order| == 0 <==> |text| == 0 by {
      if |text| > 0 {
        assert text[0] in d.count;
      }
    }
    BuildTree(q)
  }

  /** The root built from a non-empty text is well formed, has the text's
      length as frequency, and its leaves are exactly the distinct symbols
      of the text, each on one leaf. */
  lemma {:induction false} TreeOfText(text: string)
    requires |text| > 0
    ensures WellFormed(TreeOf(text)[0])
    ensures TreeOf(text)[0].freq == |text|
    ensures forall c :: c in Syms(TreeOf(text)[0]) <==> c in text
    ensures DistinctLeaves(TreeOf(text)[0])
  {
    var d := MakeFrequencyDic(text);
    var q := BuildHeap(d.order, d.count);
    var r := BuildTree(q);
    assert r == TreeOf(text);
    HeapWellFormed(d.order, d.count);
    assert r[..0] == [];
    assert QSyms(r) == Syms(r[0]);
    assert QTotal(r) == r[0].freq;
    CountsSumToLength(text);
    assert Syms(r[0]) == multiset(d.order);
    DistinctMultiset(d.order);
    forall c ensures c in Syms(r[0]) <==> c in text {
      assert c in multiset(d.order) <==> c in d.order;
    }
  }

  /** The leaf symbols of a tree form a non-empty multiset. */
  lemma {:induction false} SymsNonEmpty(t: Tree)
    ensures |Syms(t)| > 0
  {
    match t
    case Leaf(_, _) =>
    case Node(l, r, _) => SymsNonEmpty(l);
  }

  /** A leaf carries one symbol, so a tree with two different symbols is an
      internal node. */
  lemma TwoSymbolsNeedNode(t: Tree, a: char, b: char)
    requires a in Syms(t) && b in Syms(t) && a != b
    ensures t.Node?
  {}

  /** An internal node with distinct leaves carries at least two different
      symbols. */
  lemma {:induction false} NodeHasTwoSymbols(t: Tree)
    requires t.Node? && DistinctLeaves(t)
    ensures exists a, b :: a in Syms(t) && b in Syms(t) && a != b
  {
    SymsNonEmpty(t.left);
    SymsNonEmpty(t.right);
    var a :| a in Syms(t.left);
    var b :| b in Syms(t.right);
    assert a in Syms(t) && b in Syms(t);
  }
}
