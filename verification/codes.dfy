/** Code-table derivation: the root-to-leaf walk that gives every symbol
    its bit string. */
module Codes {
  import opened Results
  import opened Bits
  import opened HuffmanTree

  /** The symbol-to-code table and its reverse, code-to-symbol. */
  datatype CodeTables = CodeTables(codes: map<char, Bits>, reverse: map<Bits, char>)

  /** Walks `p` from `t`, a 0 going left and a 1 going right: the symbol of
      the leaf reached exactly when `p` runs out, if any. */
  function Follow(t: Tree, p: Bits): Option<char>
    decreases p
  {
    match t
    case Leaf(c, _) => if |p| == 0 then Some(c) else None
    case Node(l, r, _) => if |p| == 0 then None else Follow(if p[0] then r else l, p[1..])
  }

  /** The recursive walk: at a leaf, record the bits accumulated so far as
      its code (both ways); at an internal node, descend left with a 0
      appended and then right with a 1 appended. Entries recorded later
      overwrite earlier ones with the same key, as dictionary assignment does. */
  function BuildCodesHelper(t: Tree, curr: Bits): (ct: CodeTables)
    ensures forall c :: c in ct.codes <==> c in Syms(t)
  {
    match t
    case Leaf(c, _) => CodeTables(map[c := curr], map[curr := c])
    case Node(l, r, _) =>
      var cl := BuildCodesHelper(l, curr + [false]);
      var cr := BuildCodesHelper(r, curr + [true]);
      CodeTables(cl.codes + cr.codes, cl.reverse + cr.reverse)
  }

  /** Pops the root and walks it from the empty path: every leaf symbol,
      and nothing else, gets a code. */
  function BuildCodes(root: Tree): (ct: CodeTables)
    ensures forall c :: c in ct.codes <==> c in Syms(root)
  {
    BuildCodesHelper(root, [])
  }

  /** Every code recorded below `curr` is `curr` followed by the path from
      `t` to a leaf carrying that symbol. */
  lemma {:induction false} HelperCodes(t: Tree, curr: Bits)
    ensures forall c :: c in BuildCodesHelper(t, curr).codes ==>
      var p := BuildCodesHelper(t, curr).codes[c];
      IsPrefix(curr, p) && Follow(t, p[|curr|..]) == Some(c)
  {
    match t
    case Leaf(c, _) =>
    case Node(l, r, _) =>
      var cl := BuildCodesHelper(l, curr + [false]);
      var cr := BuildCodesHelper(r, curr + [true]);
      var ct := BuildCodesHelper(t, curr);
      HelperCodes(l, curr + [false]);
      HelperCodes(r, curr + [true]);
      forall c | c in ct.codes
        ensures IsPrefix(curr, ct.codes[c]) && Follow(t, ct.codes[c][|curr|..]) == Some(c)
      {
        var p := ct.codes[c];
        if c in cr.codes {
          assert p == cr.codes[c];
          StepDown(t, curr, true, p);
        } else {
          assert p == cl.codes[c];
          StepDown(t, curr, false, p);
        }
      }
  }

  /** Every entry of the reverse table recorded below `curr` is `curr`
      followed by a path from `t` to a leaf carrying the entry's symbol. */
  lemma {:induction false} HelperReverse(t: Tree, curr: Bits)
    ensures forall p :: p in BuildCodesHelper(t, curr).reverse ==>
      IsPrefix(curr, p) && Follow(t, p[|curr|..]) == Some(BuildCodesHelper(t, curr).reverse[p])
  {
    match t
    case Leaf(c, _) =>
    case Node(l, r, _) =>
      var cl := BuildCodesHelper(l, curr + [false]);
      var cr := BuildCodesHelper(r, curr + [true]);
      var ct := BuildCodesHelper(t, curr);
      HelperReverse(l, curr + [false]);
      HelperReverse(r, curr + [true]);
      forall p | p in ct.reverse
        ensures IsPrefix(curr, p) && Follow(t, p[|curr|..]) == Some(ct.reverse[p])
      {
        if p in cr.reverse {
          assert ct.reverse[p] == cr.reverse[p];
          StepDown(t, curr, true, p);
        } else {
          assert ct.reverse[p] == cl.reverse[p];
          StepDown(t, curr, false, p);
        }
      }
  }

  /** Every path from `t` to a leaf, after `curr`, is recorded in the
      reverse table. */
  lemma {:induction false} HelperComplete(t: Tree, curr: Bits)
    ensures forall q :: Follow(t, q).Some? ==> curr + q in BuildCodesHelper(t, curr).reverse
  {
    match t
    case Leaf(c, _) =>
      forall q | Follow(t, q).Some? ensures curr + q in BuildCodesHelper(t, curr).reverse {
        assert curr + q == curr;
      }
    case Node(l, r, _) =>
      var ct := BuildCodesHelper(t, curr);
      HelperComplete(l, curr + [false]);
      HelperComplete(r, curr + [true]);
      forall q | Follow(t, q).Some? ensures curr + q in ct.reverse {
        var b := q[0];
        assert curr + q == (curr + [b]) + q[1..];
        if b {
          assert Follow(r, q[1..]).Some?;
        } else {
          assert Follow(l, q[1..]).Some?;
        }
      }
  }

  /** A path below `curr + [b]` is a path below `curr` that first takes the
      branch `b`. */
  lemma {:induction false} StepDown(t: Tree, curr: Bits, b: bool, p: Bits)
    requires t.Node?
    requires IsPrefix(curr + [b], p)
    ensures IsPrefix(curr, p)
    ensures Follow(t, p[|curr|..]) == Follow(if b then t.right else t.left, p[|curr| + 1..])
  {
    assert p[..|curr|] == (curr + [b])[..|curr|];
    assert p[|curr|..][0] == b;
    assert p[|curr|..][1..] == p[|curr| + 1..];
  }

  /** A leaf path cannot be continued into another leaf path. */
  lemma {:induction false} FollowPrefixFree(t: Tree, p: Bits, q: Bits)
    requires Follow(t, p).Some? && Follow(t, q).Some?
    requires IsPrefix(p, q)
    ensures p == q
    decreases p
  {
    match t
    case Leaf(_, _) =>
    case Node(l, r, _) =>
      assert p[1..] == q[1..][..|p| - 1];
      FollowPrefixFree(if p[0] then r else l, p[1..], q[1..]);
  }

  /** The symbol reached by a leaf path labels a leaf of the tree. */
  lemma {:induction false} FollowReachesLeaf(t: Tree, p: Bits)
    requires Follow(t, p).Some?
    ensures Follow(t, p).value in Syms(t)
    decreases p
  {
    match t
    case Leaf(_, _) =>
    case Node(l, r, _) => FollowReachesLeaf(if p[0] then r else l, p[1..]);
  }

  /** In a tree whose leaves carry distinct symbols, two paths reaching the
      same symbol are the same path. */
  lemma {:induction false} FollowInjective(t: Tree, p: Bits, q: Bits)
    requires DistinctLeaves(t)
    requires Follow(t, p).Some? && Follow(t, p) == Follow(t, q)
    ensures p == q
    decreases p
  {
    match t
    case Leaf(_, _) =>
    case Node(l, r, _) =>
      var c := Follow(t, p).value;
      assert DistinctLeaves(l) && DistinctLeaves(r) by {
        forall x ensures Syms(l)[x] <= 1 && Syms(r)[x] <= 1 {
          assert Syms(t)[x] == Syms(l)[x] + Syms(r)[x];
        }
      }
      assert p[0] == q[0] by {
        FollowReachesLeaf(if p[0] then r else l, p[1..]);
        FollowReachesLeaf(if q[0] then r else l, q[1..]);
        assert Syms(t)[c] == Syms(l)[c] + Syms(r)[c];
      }
      FollowInjective(if p[0] then r else l, p[1..], q[1..]);
      assert p == [p[0]] + p[1..] && q == [q[0]] + q[1..];
  }

  /** The tables are fit for encoding and greedy decoding: every code is
      non-empty, the two tables are inverse to each other, and the codes
      are prefix-free. */
  ghost predicate ValidTables(ct: CodeTables) {
    && Decodable(ct)
    && (forall p :: p in ct.reverse ==> ct.reverse[p] in ct.codes && ct.codes[ct.reverse[p]] == p)
  }

  /** What greedy decoding of an encoded text relies on: every code is
      non-empty and maps back to its symbol, and the codes are prefix-free. */
  ghost predicate Decodable(ct: CodeTables) {
    && (forall c :: c in ct.codes ==> |ct.codes[c]| > 0)
    && (forall c :: c in ct.codes ==> ct.codes[c] in ct.reverse && ct.reverse[ct.codes[c]] == c)
    && PrefixFree(ct.reverse.Keys)
  }

  /** Each leaf symbol gets its root-to-leaf path as its code, and the
      reverse table holds exactly the root-to-leaf paths. When the root is
      an internal node, every code is non-empty. */
  lemma {:induction false} CodesArePaths(root: Tree)
    ensures forall c :: c in BuildCodes(root).codes <==> c in Syms(root)
    ensures forall c :: c in BuildCodes(root).codes ==> Follow(root, BuildCodes(root).codes[c]) == Some(c)
    ensures forall p :: p in BuildCodes(root).reverse <==> Follow(root, p).Some?
    ensures forall p :: p in BuildCodes(root).reverse ==> Follow(root, p) == Some(BuildCodes(root).reverse[p])
    ensures root.Node? ==> forall c :: c in BuildCodes(root).codes ==> |BuildCodes(root).codes[c]| > 0
  {
    var ct := BuildCodes(root);
    HelperCodes(root, []);
    HelperReverse(root, []);
    HelperComplete(root, []);
    forall c | c in ct.codes ensures Follow(root, ct.codes[c]) == Some(c) {
      assert ct.codes[c][0..] == ct.codes[c];
    }
    forall p | p in ct.reverse ensures Follow(root, p) == Some(ct.reverse[p]) {
      assert p[0..] == p;
    }
    forall p | Follow(root, p).Some? ensures p in ct.reverse {
      assert [] + p == p;
    }
  }

  /** The code table and its reverse are mutual inverses, provided the
      leaves carry distinct symbols (as every tree built from a frequency
      dictionary does). */
  lemma {:induction false} CodesMutualInverse(root: Tree)
    requires DistinctLeaves(root)
    ensures forall c :: c in BuildCodes(root).codes ==>
      BuildCodes(root).codes[c] in BuildCodes(root).reverse &&
      BuildCodes(root).reverse[BuildCodes(root).codes[c]] == c
    ensures forall p :: p in BuildCodes(root).reverse ==>
      BuildCodes(root).reverse[p] in BuildCodes(root).codes &&
      BuildCodes(root).codes[BuildCodes(root).reverse[p]] == p
  {
    var ct := BuildCodes(root);
    CodesArePaths(root);
    forall p | p in ct.reverse
      ensures ct.reverse[p] in ct.codes && ct.codes[ct.reverse[p]] == p
    {
      var c := ct.reverse[p];
      FollowReachesLeaf(root, p);
      FollowInjective(root, p, ct.codes[c]);
    }
  }

  /** No code in the reverse table is a prefix of another. */
  lemma {:induction false} CodesPrefixFree(root: Tree)
    ensures PrefixFree(BuildCodes(root).reverse.Keys)
  {
    var ct := BuildCodes(root);
    CodesArePaths(root);
    forall p, q | p in ct.reverse.Keys && q in ct.reverse.Keys && p != q
      ensures !IsPrefix(p, q)
    {
      if IsPrefix(p, q) {
        FollowPrefixFree(root, p, q);
      }
    }
  }

  /** With an internal root and distinct leaves, the derived tables are
      fit for encoding and decoding. */
  lemma {:induction false} BuildCodesValid(root: Tree)
    requires root.Node? && DistinctLeaves(root)
    ensures ValidTables(BuildCodes(root))
  {
    CodesArePaths(root);
    CodesMutualInverse(root);
    CodesPrefixFree(root);
  }

  /** A root that is a single leaf gets the empty code, in both tables. */
  lemma {:induction false} LeafRootGetsEmptyCode(c: char, f: nat)
    ensures BuildCodes(Leaf(c, f)).codes == map[c := []]
    ensures BuildCodes(Leaf(c, f)).reverse == map[[] := c]
  {
  }

  /** The code tables with the one-symbol case repaired: a root that is a
      single leaf gets the one-bit code 0 instead of the empty code; any
      other root gets the tables of the walk. */
  function BuildCodesFixed(root: Tree): (ct: CodeTables)
    ensures forall c :: c in ct.codes <==> c in Syms(root)
    ensures root.Node? ==> ct == BuildCodes(root)
  {
    if root.Leaf? then CodeTables(map[root.sym := [false]], map[[false] := root.sym])
    else BuildCodes(root)
  }

  /** The repaired tables are fit for encoding and decoding for every tree
      with distinct leaves, including a single leaf. */
  lemma {:induction false} BuildCodesFixedValid(root: Tree)
    requires DistinctLeaves(root)
    ensures ValidTables(BuildCodesFixed(root))
  {
    if root.Node? {
      BuildCodesValid(root);
    }
  }
}
