/**
 * The compressors' Huffman tree: the frequency-ordered list of nodes
 * (`insertarOrdenado`), the merge loops of the three variants, and the
 * root-to-leaf paths the code tables are read from.
 */
module Huffman {
  import opened Wrappers
  import opened Bits

  /**
   * A node of the tree. A leaf carries a symbol and its count; an internal
   * node carries the sum the merge loop stored and its two children (the
   * placeholder symbol the source writes into internal nodes is never read).
   */
  datatype HTree = Leaf(sym: byte, weight: nat) | Node(weight: nat, left: HTree, right: HTree)

  /** Every internal node weighs what its two children weigh together. */
  predicate WellWeighted(t: HTree)
  {
    match t
    case Leaf(_, _) => true
    case Node(w, l, r) => w == l.weight + r.weight && WellWeighted(l) && WellWeighted(r)
  }

  function LeafSyms(t: HTree): set<byte>
  {
    match t
    case Leaf(s, _) => {s}
    case Node(_, l, r) => LeafSyms(l) + LeafSyms(r)
  }

  function Height(t: HTree): nat
  {
    match t
    case Leaf(_, _) => 0
    case Node(_, l, r) => 1 + (if Height(l) < Height(r) then Height(r) else Height(l))
  }

  // ---------------------------------------------------------------------------
  // Paths: a 1 goes right, a 0 goes left

  /** The subtree reached from t by following p, if p stays inside the tree. */
  function Subtree(t: HTree, p: seq<bool>): Option<HTree>
  {
    if p == [] then Some(t)
    else if t.Leaf? then None
    else Subtree(if p[0] then t.right else t.left, p[1..])
  }

  /** Following p from the root ends exactly at a leaf holding s. */
  predicate IsLeafPath(t: HTree, p: seq<bool>, s: byte)
  {
    Subtree(t, p).Some? && Subtree(t, p).value.Leaf? && Subtree(t, p).value.sym == s
  }

  /** No leaf path is a prefix of another: the codes read off a tree are prefix-free. */
  lemma {:induction false} LeafPathPrefix(t: HTree, p: seq<bool>, q: seq<bool>, s: byte, s': byte)
    requires IsLeafPath(t, p, s) && IsLeafPath(t, q, s')
    requires p <= q
    ensures p == q && s == s'
  {
    if p != [] {
      LeafPathPrefix(if p[0] then t.right else t.left, p[1..], q[1..], s, s');
      assert p == [p[0]] + p[1..] && q == [q[0]] + q[1..];
    }
  }

  lemma {:induction false} LeafPathHeight(t: HTree, p: seq<bool>, s: byte)
    requires IsLeafPath(t, p, s)
    ensures |p| <= Height(t)
    ensures t.Node? ==> |p| >= 1
  {
    if p != [] {
      LeafPathHeight(if p[0] then t.right else t.left, p[1..], s);
    }
  }

  lemma {:induction false} LeafPathSym(t: HTree, p: seq<bool>, s: byte)
    requires IsLeafPath(t, p, s)
    ensures s in LeafSyms(t)
  {
    if p != [] {
      LeafPathSym(if p[0] then t.right else t.left, p[1..], s);
    }
  }

  // ---------------------------------------------------------------------------
  // The leaves in the order the table builders visit them: right subtree first

  datatype Code = Code(sym: byte, path: seq<bool>)

  function Prefixed(b: bool, cs: seq<Code>): (r: seq<Code>)
    ensures |r| == |cs|
    ensures forall i :: 0 <= i < |cs| ==> r[i] == Code(cs[i].sym, [b] + cs[i].path)
  {
    if cs == [] then [] else [Code(cs[0].sym, [b] + cs[0].path)] + Prefixed(b, cs[1..])
  }

  /** Each leaf's symbol with its path from the root, right subtree before left. */
  function LeafCodes(t: HTree): seq<Code>
  {
    match t
    case Leaf(s, _) => [Code(s, [])]
    case Node(_, l, r) => Prefixed(true, LeafCodes(r)) + Prefixed(false, LeafCodes(l))
  }

  function LeafCount(t: HTree): nat
  {
    match t
    case Leaf(_, _) => 1
    case Node(_, l, r) => LeafCount(l) + LeafCount(r)
  }

  /** The i-th code of a node: one from its right subtree, then one from its left. */
  lemma LeafCodesNode(t: HTree, i: nat)
    requires t.Node? && i < |LeafCodes(t)|
    ensures var nr := |LeafCodes(t.right)|;
      var sub := if i < nr then LeafCodes(t.right)[i] else LeafCodes(t.left)[i - nr];
      && LeafCodes(t)[i].sym == sub.sym && LeafCodes(t)[i].path == [i < nr] + sub.path
      && LeafCodes(t)[i].path[0] == (i < nr) && LeafCodes(t)[i].path[1..] == sub.path
  {
  }

  /** Each visited code is the path of a leaf holding that code's symbol. */
  lemma {:induction false} LeafCodesAreLeafPaths(t: HTree, i: nat)
    requires i < |LeafCodes(t)|
    ensures IsLeafPath(t, LeafCodes(t)[i].path, LeafCodes(t)[i].sym)
  {
    if t.Node? {
      var nr := |LeafCodes(t.right)|;
      LeafCodesNode(t, i);
      if i < nr {
        LeafCodesAreLeafPaths(t.right, i);
      } else {
        LeafCodesAreLeafPaths(t.left, i - nr);
      }
    }
  }

  /** One code per leaf. */
  lemma {:induction false} LeafCodesCount(t: HTree)
    ensures |LeafCodes(t)| == LeafCount(t)
  {
    if t.Node? {
      LeafCodesCount(t.left);
      LeafCodesCount(t.right);
    }
  }

  /** Every leaf symbol is visited. */
  lemma {:induction false} LeafCodesCover(t: HTree, s: byte)
    requires s in LeafSyms(t)
    ensures exists i :: 0 <= i < |LeafCodes(t)| && LeafCodes(t)[i].sym == s
  {
    if t.Node? {
      var rs, ls := LeafCodes(t.right), LeafCodes(t.left);
      assert LeafCodes(t) == Prefixed(true, rs) + Prefixed(false, ls);
      if s in LeafSyms(t.right) {
        LeafCodesCover(t.right, s);
        var i :| 0 <= i < |rs| && rs[i].sym == s;
        assert LeafCodes(t)[i] == Prefixed(true, rs)[i];
      } else {
        LeafCodesCover(t.left, s);
        var i :| 0 <= i < |ls| && ls[i].sym == s;
        assert LeafCodes(t)[|rs| + i] == Prefixed(false, ls)[i];
      }
    } else {
      assert LeafCodes(t)[0].sym == s;
    }
  }

  /** Different leaves have different paths. */
  lemma {:induction false} LeafCodesDistinct(t: HTree, i: nat, j: nat)
    requires i < |LeafCodes(t)| && j < |LeafCodes(t)| && i != j
    ensures LeafCodes(t)[i].path != LeafCodes(t)[j].path
  {
    if t.Node? {
      var nr := |LeafCodes(t.right)|;
      var p, q := LeafCodes(t)[i].path, LeafCodes(t)[j].path;
      LeafCodesNode(t, i);
      LeafCodesNode(t, j);
      if i < nr && j < nr {
        LeafCodesDistinct(t.right, i, j);
        assert p[1..] != q[1..];
      } else if i >= nr && j >= nr {
        LeafCodesDistinct(t.left, i - nr, j - nr);
        assert p[1..] != q[1..];
      } else {
        assert p[0] != q[0];
      }
    }
  }

  /** The root of a well-weighted tree weighs what its leaves weigh together. */
  function LeafWeight(t: HTree): nat
  {
    match t
    case Leaf(_, w) => w
    case Node(_, l, r) => LeafWeight(l) + LeafWeight(r)
  }

  lemma {:induction false} RootWeight(t: HTree)
    requires WellWeighted(t)
    ensures t.weight == LeafWeight(t)
  {
    if t.Node? {
      RootWeight(t.left);
      RootWeight(t.right);
    }
  }

  // ---------------------------------------------------------------------------
  // The list ordered by weight (`insertarOrdenado`, Serial and Hilos)

  predicate SortedByWeight(list: seq<HTree>)
  {
    forall i, j :: 0 <= i < j < |list| ==> list[i].weight <= list[j].weight
  }

  /** The index of the first node weighing at least w. */
  function InsertPos(list: seq<HTree>, w: nat): (k: nat)
    ensures k <= |list|
    ensures forall i :: 0 <= i < k ==> list[i].weight < w
    ensures k < |list| ==> w <= list[k].weight
  {
    if list == [] || w <= list[0].weight then 0 else 1 + InsertPos(list[1..], w)
  }

  /** The list with n placed before the first node at least as heavy. */
  function InsertByWeight(list: seq<HTree>, n: HTree): (r: seq<HTree>)
  {
    list[..InsertPos(list, n.weight)] + [n] + list[InsertPos(list, n.weight)..]
  }

  /** The first node at least as heavy as w is the one every node before it is lighter than. */
  lemma {:induction false} InsertPosUnique(list: seq<HTree>, w: nat, k: nat)
    requires k <= |list| && (forall i :: 0 <= i < k ==> list[i].weight < w)
    requires k < |list| ==> w <= list[k].weight
    ensures InsertPos(list, w) == k
  {
    if k > 0 {
      assert list[0].weight < w;
      forall i | 0 <= i < k - 1 ensures list[1..][i].weight < w {
        assert list[1..][i] == list[i + 1];
      }
      InsertPosUnique(list[1..], w, k - 1);
    }
  }

  /** Where each node sits once n has been put in. */
  lemma InsertByWeightIndex(list: seq<HTree>, n: HTree, i: nat)
    requires i <= |list|
    ensures |InsertByWeight(list, n)| == |list| + 1
    ensures var k := InsertPos(list, n.weight);
      InsertByWeight(list, n)[i] == if i < k then list[i] else if i == k then n else list[i - 1]
  {
  }

  lemma InsertByWeightMultiset(list: seq<HTree>, n: HTree)
    ensures multiset(InsertByWeight(list, n)) == multiset(list) + multiset{n}
  {
    var k := InsertPos(list, n.weight);
    assert list == list[..k] + list[k..];
  }

  lemma {:induction false} InsertByWeightSorted(list: seq<HTree>, n: HTree)
    requires SortedByWeight(list)
    ensures SortedByWeight(InsertByWeight(list, n))
    ensures multiset(InsertByWeight(list, n)) == multiset(list) + multiset{n}
  {
    var r := InsertByWeight(list, n);
    InsertByWeightMultiset(list, n);
    forall i, j | 0 <= i < j < |r| ensures r[i].weight <= r[j].weight {
      InsertByWeightIndex(list, n, i);
      InsertByWeightIndex(list, n, j);
    }
  }

  /**
   * `insertarOrdenado`: walks past every node strictly lighter than the new
   * one and splices it in there.
   */
  method InsertarOrdenado(list: seq<HTree>, nuevo: HTree) returns (r: seq<HTree>)
    ensures r == InsertByWeight(list, nuevo)
  {
    var i := 0;
    while i < |list| && nuevo.weight > list[i].weight
      invariant 0 <= i <= |list|
      invariant forall k :: 0 <= k < i ==> list[k].weight < nuevo.weight
    {
      i := i + 1;
    }
    InsertPosUnique(list, nuevo.weight, i);
    r := list[..i] + [nuevo] + list[i..];
  }

  // ---------------------------------------------------------------------------
  // Weighted lists

  function ListWeight(list: seq<HTree>): nat
  {
    if list == [] then 0 else list[0].weight + ListWeight(list[1..])
  }

  function ListSyms(list: seq<HTree>): set<byte>
  {
    if list == [] then {} else LeafSyms(list[0]) + ListSyms(list[1..])
  }

  predicate AllWellWeighted(list: seq<HTree>)
  {
    forall i :: 0 <= i < |list| ==> WellWeighted(list[i])
  }

  lemma {:induction false} ListWeightAppend(a: seq<HTree>, b: seq<HTree>)
    ensures ListWeight(a + b) == ListWeight(a) + ListWeight(b)
    ensures ListSyms(a + b) == ListSyms(a) + ListSyms(b)
  {
    if a == [] {
      assert a + b == b;
    } else {
      assert (a + b)[1..] == a[1..] + b;
      ListWeightAppend(a[1..], b);
    }
  }

  lemma {:induction false} ListSingleton(n: HTree)
    ensures ListWeight([n]) == n.weight && ListSyms([n]) == LeafSyms(n)
  {
    assert [n][1..] == [];
  }

  lemma {:induction false} InsertByWeightTotals(list: seq<HTree>, n: HTree)
    ensures ListWeight(InsertByWeight(list, n)) == ListWeight(list) + n.weight
    ensures ListSyms(InsertByWeight(list, n)) == ListSyms(list) + LeafSyms(n)
    ensures |InsertByWeight(list, n)| == |list| + 1
  {
    var k := InsertPos(list, n.weight);
    ListWeightAppend(list[..k] + [n], list[k..]);
    ListWeightAppend(list[..k], [n]);
    ListWeightAppend(list[..k], list[k..]);
    assert list == list[..k] + list[k..];
    ListSingleton(n);
  }

  // ---------------------------------------------------------------------------
  // The merge loop of Serial (compress.c:262-271) and Hilos (compress.c:186-197)

  /**
   * Pops the first two nodes, makes them the left and right children of a
   * new node weighing their sum, and puts that node back in order of weight;
   * repeats while two nodes remain. Hilos starts from a list sorted by
   * weight, so it merges the two lightest nodes; Serial starts from its list
   * sorted by symbol.
   */
  function Merged(list: seq<HTree>): (r: seq<HTree>)
    decreases |list|
  {
    if |list| < 2 then list
    else
      InsertByWeightTotals(list[2..], Node(list[0].weight + list[1].weight, list[0], list[1]));
      Merged(InsertByWeight(list[2..], Node(list[0].weight + list[1].weight, list[0], list[1])))
  }

  lemma {:induction false} MergedProperties(list: seq<HTree>)
    requires AllWellWeighted(list)
    ensures |Merged(list)| == if list == [] then 0 else 1
    ensures ListWeight(Merged(list)) == ListWeight(list)
    ensures ListSyms(Merged(list)) == ListSyms(list)
    ensures AllWellWeighted(Merged(list))
    ensures |list| >= 2 ==> Merged(list)[0].Node?
    decreases |list|
  {
    if |list| >= 2 {
      var p := Node(list[0].weight + list[1].weight, list[0], list[1]);
      var next := InsertByWeight(list[2..], p);
      InsertByWeightTotals(list[2..], p);
      forall i | 0 <= i < |list[2..]| ensures WellWeighted(list[2..][i]) {
        assert list[2..][i] == list[i + 2];
      }
      InsertByWeightWellWeighted(list[2..], p);
      ListFirstTwo(list);
      MergedProperties(next);
      if |next| < 2 {
        assert next == [p];
      }
    }
  }

  /** Putting a well-weighted node into a well-weighted list keeps it well weighted. */
  lemma InsertByWeightWellWeighted(list: seq<HTree>, n: HTree)
    requires AllWellWeighted(list) && WellWeighted(n)
    ensures AllWellWeighted(InsertByWeight(list, n))
  {
    var r := InsertByWeight(list, n);
    forall i | 0 <= i < |r| ensures WellWeighted(r[i]) {
      InsertByWeightIndex(list, n, i);
    }
  }

  /** A list's weight and symbols are those of its first two nodes and of the rest. */
  lemma ListFirstTwo(list: seq<HTree>)
    requires |list| >= 2
    ensures ListWeight(list) == list[0].weight + list[1].weight + ListWeight(list[2..])
    ensures ListSyms(list) == LeafSyms(list[0]) + LeafSyms(list[1]) + ListSyms(list[2..])
  {
    assert list[1..][1..] == list[2..];
  }

  /** The loop itself, on the list of nodes the source links through `siguiente`. */
  method MergeLoop(list: seq<HTree>) returns (arbol: seq<HTree>)
    ensures arbol == Merged(list)
  {
    arbol := list;
    while |arbol| >= 2
      invariant Merged(arbol) == Merged(list)
      decreases |arbol|
    {
      var izquierda := arbol[0];
      var derecha := arbol[1];
      var nuevo := Node(izquierda.weight + derecha.weight, izquierda, derecha);
      InsertByWeightTotals(arbol[2..], nuevo);
      arbol := InsertarOrdenado(arbol[2..], nuevo);
    }
  }
}
