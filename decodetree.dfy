/**
 * The decompressors' tree, rebuilt from the (symbol, bits, nBits) triples of
 * an archive header: Fork's `rebuildHuffmanTree` (decompress.c:174-211) and
 * the `createTree` of Serial (decompress.c:108-145) and Hilos
 * (decompress.c:42-75). The heap nodes become an arena: node k has symbol
 * sym[k] and children left[k] and right[k], -1 standing for NULL; node 0 is
 * the root. A ghost label per node records the path that leads to it.
 */
module DecodeTree {
  import opened Bits
  import opened Huffman
  import opened CodeTable

  datatype Arena = Arena(sym: seq<byte>, left: seq<int>, right: seq<int>)

  function Size(t: Arena): nat
  {
    |t.sym|
  }

  predicate Valid(t: Arena)
  {
    && |t.sym| >= 1 && |t.left| == |t.sym| && |t.right| == |t.sym|
    && (forall k :: 0 <= k < |t.sym| ==> t.left[k] == -1 || 0 < t.left[k] < |t.sym|)
    && (forall k :: 0 <= k < |t.sym| ==> t.right[k] == -1 || 0 < t.right[k] < |t.sym|)
  }

  /** A lone root with symbol 0 and no children (the `memset` or explicit initialisation). */
  function EmptyTree(): (t: Arena)
    ensures Valid(t) && Size(t) == 1
  {
    Arena([0], [-1], [-1])
  }

  /** The child a bit selects: 1 goes right, 0 goes left. */
  function Child(t: Arena, k: int, b: bool): (n: int)
    requires Valid(t) && 0 <= k < Size(t)
    ensures n == -1 || 0 < n < Size(t)
  {
    if b then t.right[k] else t.left[k]
  }

  predicate IsLeaf(t: Arena, k: int)
    requires Valid(t) && 0 <= k < Size(t)
  {
    t.left[k] == -1 && t.right[k] == -1
  }

  /** The node reached from k by following p, or -1 once a missing child is met. */
  function Follow(t: Arena, k: int, p: seq<bool>): (n: int)
    requires Valid(t) && 0 <= k < Size(t)
    ensures -1 <= n < Size(t)
    decreases |p|
  {
    if p == [] then k
    else if Child(t, k, p[0]) == -1 then -1
    else Follow(t, Child(t, k, p[0]), p[1..])
  }

  /**
   * Decoding the code c from the root passes only through internal nodes and
   * stops at a leaf holding s.
   */
  predicate Decodes(t: Arena, c: seq<bool>, s: byte)
    requires Valid(t)
  {
    && |c| >= 1
    && (forall m :: 0 < m < |c| ==> Follow(t, 0, c[..m]) >= 0 && !IsLeaf(t, Follow(t, 0, c[..m])))
    && Follow(t, 0, c) >= 0 && IsLeaf(t, Follow(t, 0, c)) && t.sym[Follow(t, 0, c)] == s
  }

  // ---------------------------------------------------------------------------
  // Paths

  lemma {:induction false} FollowSnoc(t: Arena, k: int, p: seq<bool>, b: bool)
    requires Valid(t) && 0 <= k < Size(t)
    ensures Follow(t, k, p + [b]) == if Follow(t, k, p) == -1 then -1 else Child(t, Follow(t, k, p), b)
    decreases |p|
  {
    if p == [] {
      assert p + [b] == [b] && [b][1..] == [];
    } else {
      assert (p + [b])[1..] == p[1..] + [b];
      if Child(t, k, p[0]) != -1 {
        FollowSnoc(t, Child(t, k, p[0]), p[1..], b);
      }
    }
  }

  /** The prefixes of a path that stays inside the tree stay inside it too. */
  lemma {:induction false} FollowPrefix(t: Arena, k: int, p: seq<bool>, m: nat)
    requires Valid(t) && 0 <= k < Size(t)
    requires m <= |p| && Follow(t, k, p) != -1
    ensures Follow(t, k, p[..m]) != -1
    decreases |p|
  {
    if m > 0 {
      assert p[..m][1..] == p[1..][..m - 1];
      FollowPrefix(t, Child(t, k, p[0]), p[1..], m - 1);
    }
  }

  /** Every label is the path from the root, children extending their parent's label by one bit. */
  ghost predicate Labelled(t: Arena, labels: seq<seq<bool>>)
    requires Valid(t)
  {
    && |labels| == Size(t) && labels[0] == []
    && (forall k :: 0 <= k < Size(t) && t.left[k] != -1 ==> labels[t.left[k]] == labels[k] + [false])
    && (forall k :: 0 <= k < Size(t) && t.right[k] != -1 ==> labels[t.right[k]] == labels[k] + [true])
  }

  lemma {:induction false} FollowLabel(t: Arena, labels: seq<seq<bool>>, k: int, p: seq<bool>)
    requires Valid(t) && Labelled(t, labels) && 0 <= k < Size(t)
    requires Follow(t, k, p) != -1
    ensures labels[Follow(t, k, p)] == labels[k] + p
    decreases |p|
  {
    if p == [] {
      assert labels[k] + p == labels[k];
    } else {
      var n := Child(t, k, p[0]);
      FollowLabel(t, labels, n, p[1..]);
      assert labels[k] + p == labels[k] + [p[0]] + p[1..];
    }
  }

  /** t keeps every child pointer of t0 that was set (new nodes and new pointers may be added). */
  predicate Extends(t0: Arena, t: Arena)
  {
    && Valid(t0) && Valid(t) && Size(t0) <= Size(t)
    && (forall k :: 0 <= k < Size(t0) && t0.left[k] != -1 ==> t.left[k] == t0.left[k])
    && (forall k :: 0 <= k < Size(t0) && t0.right[k] != -1 ==> t.right[k] == t0.right[k])
  }

  lemma ExtendsTrans(t0: Arena, t1: Arena, t2: Arena)
    requires Extends(t0, t1) && Extends(t1, t2)
    ensures Extends(t0, t2)
  {
  }

  lemma {:induction false} FollowExtends(t0: Arena, t: Arena, k: int, p: seq<bool>)
    requires Extends(t0, t) && 0 <= k < Size(t0)
    requires Follow(t0, k, p) != -1
    ensures Follow(t, k, p) == Follow(t0, k, p)
    decreases |p|
  {
    if p != [] {
      FollowExtends(t0, t, Child(t0, k, p[0]), p[1..]);
    }
  }

  // ---------------------------------------------------------------------------
  // What the inserted codes leave in the tree

  /** Any two distinct codes: neither is a prefix of the other. */
  predicate PrefixFree(codes: seq<seq<bool>>)
  {
    forall i, j :: 0 <= i < |codes| && 0 <= j < |codes| && i != j ==> !(codes[i] <= codes[j])
  }

  /** Every node but the root lies on the path of some inserted code. */
  ghost predicate CoveredCodes(t: Arena, labels: seq<seq<bool>>, codes: seq<seq<bool>>)
    requires Valid(t) && |labels| == Size(t)
  {
    forall k :: 0 < k < Size(t) ==> exists j :: 0 <= j < |codes| && labels[k] <= codes[j]
  }

  /** The same while a code c is being inserted and its first i bits have been walked. */
  ghost predicate Covered(t: Arena, labels: seq<seq<bool>>, codes: seq<seq<bool>>, c: seq<bool>, i: nat)
    requires Valid(t) && |labels| == Size(t) && i <= |c|
  {
    forall k :: 0 < k < Size(t) ==> labels[k] <= c[..i] || exists j :: 0 <= j < |codes| && labels[k] <= codes[j]
  }

  /** Each inserted code leads to a node holding its symbol. */
  predicate Stored(t: Arena, codes: seq<seq<bool>>, syms: seq<byte>)
    requires Valid(t)
  {
    && |syms| == |codes|
    && forall j :: 0 <= j < |codes| ==> Follow(t, 0, codes[j]) >= 0 && t.sym[Follow(t, 0, codes[j])] == syms[j]
  }

  lemma CoveredDone(t: Arena, labels: seq<seq<bool>>, codes: seq<seq<bool>>, c: seq<bool>)
    requires Valid(t) && |labels| == Size(t)
    requires Covered(t, labels, codes, c, |c|)
    ensures CoveredCodes(t, labels, codes + [c])
  {
    assert c[..|c|] == c;
    forall k | 0 < k < Size(t) ensures exists j :: 0 <= j < |codes + [c]| && labels[k] <= (codes + [c])[j] {
      if labels[k] <= c {
        assert (codes + [c])[|codes|] == c;
      } else {
        var j :| 0 <= j < |codes| && labels[k] <= codes[j];
        assert (codes + [c])[j] == codes[j];
      }
    }
  }

  /** No node hangs below the end of an inserted code when the codes are prefix-free. */
  lemma NothingBelowCode(t: Arena, labels: seq<seq<bool>>, codes: seq<seq<bool>>, j: nat, k: int)
    requires Valid(t) && |labels| == Size(t) && CoveredCodes(t, labels, codes) && PrefixFree(codes)
    requires j < |codes| && 0 < k < Size(t)
    ensures !(|codes[j]| < |labels[k]| && codes[j] <= labels[k])
  {
    var j' :| 0 <= j' < |codes| && labels[k] <= codes[j'];
    var cj, cj', lk := codes[j], codes[j'], labels[k];
    assert |cj| < |lk| && cj <= lk ==> cj <= cj' && |cj| < |cj'|;
  }

  /** With prefix-free codes, each code ends at a leaf, passes only internal nodes, and so decodes to its symbol. */
  lemma StoredDecodes(t: Arena, labels: seq<seq<bool>>, codes: seq<seq<bool>>, syms: seq<byte>, j: nat)
    requires Valid(t) && Labelled(t, labels) && CoveredCodes(t, labels, codes)
    requires PrefixFree(codes) && Stored(t, codes, syms)
    requires j < |codes| && |codes[j]| >= 1
    ensures Decodes(t, codes[j], syms[j])
  {
    var c := codes[j];
    var k := Follow(t, 0, c);
    FollowLabel(t, labels, 0, c);
    assert labels[k] == c;
    forall k' | 0 < k' < Size(t) ensures !(|c| < |labels[k']| && c <= labels[k']) {
      NothingBelowCode(t, labels, codes, j, k');
    }
    assert c <= c + [false] && c <= c + [true];
    InnerNodes(t, c);
  }

  /** Every proper prefix of a path that stays inside the tree ends at a node with a child. */
  lemma InnerNodes(t: Arena, c: seq<bool>)
    requires Valid(t) && Follow(t, 0, c) != -1
    ensures forall m :: 0 < m < |c| ==> Follow(t, 0, c[..m]) >= 0 && !IsLeaf(t, Follow(t, 0, c[..m]))
  {
    forall m | 0 < m < |c| ensures Follow(t, 0, c[..m]) >= 0 && !IsLeaf(t, Follow(t, 0, c[..m])) {
      FollowPrefix(t, 0, c, m + 1);
      assert c[..m + 1] == c[..m] + [c[m]];
      FollowSnoc(t, 0, c[..m], c[m]);
    }
  }

  // ---------------------------------------------------------------------------
  // Walking one bit, allocating a missing child

  /**
   * `current = current->right` (or left) after allocating a zeroed node
   * when that child is NULL: Fork decompress.c:192-204, Serial
   * decompress.c:119-137, Hilos decompress.c:52-66.
   */
  method Descend(t: Arena, ghost labels: seq<seq<bool>>, current: int, bit: bool)
    returns (t': Arena, ghost labels': seq<seq<bool>>, next: int)
    requires Valid(t) && Labelled(t, labels) && 0 <= current < Size(t)
    ensures Valid(t') && Labelled(t', labels') && Extends(t, t')
    ensures next == Child(t', current, bit) && 0 < next < Size(t')
    ensures labels'[next] == labels[current] + [bit]
    ensures labels'[..Size(t)] == labels
    ensures forall k :: Size(t) <= k < Size(t') ==> labels'[k] == labels[current] + [bit]
    ensures forall k :: 0 <= k < Size(t) ==> t'.sym[k] == t.sym[k]
  {
    if Child(t, current, bit) == -1 {
      var n := Size(t);
      var grown := Arena(t.sym + [0], t.left + [-1], t.right + [-1]);
      if bit {
        t' := grown.(right := grown.right[current := n]);
      } else {
        t' := grown.(left := grown.left[current := n]);
      }
      labels' := labels + [labels[current] + [bit]];
      next := n;
    } else {
      t', labels', next := t, labels, Child(t, current, bit);
    }
  }

  /** Descending keeps the tree labelled, covered up to the next bit, and the walked path leading to the new cursor. */
  lemma DescendStep(t: Arena, labels: seq<seq<bool>>, t': Arena, labels': seq<seq<bool>>,
                    codes: seq<seq<bool>>, c: seq<bool>, i: nat, current: int, next: int)
    requires i < |c|
    requires Valid(t) && Labelled(t, labels) && 0 <= current < Size(t)
    requires labels[current] == c[..i] && Follow(t, 0, c[..i]) == current
    requires Covered(t, labels, codes, c, i)
    requires Valid(t') && Labelled(t', labels') && Extends(t, t')
    requires next == Child(t', current, c[i]) && 0 < next < Size(t')
    requires labels'[next] == labels[current] + [c[i]]
    requires labels'[..Size(t)] == labels
    requires forall k :: Size(t) <= k < Size(t') ==> labels'[k] == labels[current] + [c[i]]
    ensures labels'[next] == c[..i + 1] && Follow(t', 0, c[..i + 1]) == next
    ensures Covered(t', labels', codes, c, i + 1)
  {
    assert c[..i + 1] == c[..i] + [c[i]];
    FollowExtends(t, t', 0, c[..i]);
    FollowSnoc(t', 0, c[..i], c[i]);
    forall k | 0 < k < Size(t')
      ensures labels'[k] <= c[..i + 1] || exists j :: 0 <= j < |codes| && labels'[k] <= codes[j]
    {
      if k < Size(t) {
        assert labels'[k] == labels[k];
        assert labels[k] <= c[..i] ==> labels[k] <= c[..i + 1];
      }
    }
  }

  // ---------------------------------------------------------------------------
  // Fork: rebuildHuffmanTree

  /**
   * The body of the loop at decompress.c:178-208: walk bits nBits-1 down to
   * 0 of the code value, allocating missing children, then store the symbol
   * in the node reached.
   */
  method ForkInsert(t0: Arena, symbol: byte, bits: nat, nBits: nat,
                    ghost labels0: seq<seq<bool>>, ghost codes: seq<seq<bool>>, ghost syms: seq<byte>)
    returns (t: Arena, ghost labels: seq<seq<bool>>)
    requires Valid(t0) && Labelled(t0, labels0) && CoveredCodes(t0, labels0, codes)
    ensures Valid(t) && Labelled(t, labels) && CoveredCodes(t, labels, codes + [CodeBits(bits, nBits)])
    ensures PrefixFree(codes + [CodeBits(bits, nBits)]) && Stored(t0, codes, syms)
      ==> Stored(t, codes + [CodeBits(bits, nBits)], syms + [symbol])
    ensures nBits == 0 ==> t == t0.(sym := t0.sym[0 := symbol])
  {
    ghost var c := CodeBits(bits, nBits);
    t, labels := t0, labels0;
    var current := 0;
    var bitPos: int := nBits - 1;
    while bitPos >= 0
      invariant -1 <= bitPos < nBits
      invariant Valid(t) && Labelled(t, labels) && Extends(t0, t)
      invariant 0 <= current < Size(t)
      invariant labels[current] == c[..nBits - 1 - bitPos]
      invariant Follow(t, 0, c[..nBits - 1 - bitPos]) == current
      invariant Covered(t, labels, codes, c, nBits - 1 - bitPos)
      invariant forall k :: 0 <= k < Size(t0) ==> t.sym[k] == t0.sym[k]
      invariant bitPos == nBits - 1 ==> t == t0 && current == 0
      decreases bitPos
    {
      ghost var i := nBits - 1 - bitPos;
      var bit := (bits / Pow2(bitPos)) % 2 == 1;
      CodeBitsAt(bits, nBits, i);
      ghost var tPrev, labelsPrev := t, labels;
      var next;
      t, labels, next := Descend(t, labels, current, bit);
      DescendStep(tPrev, labelsPrev, t, labels, codes, c, i, current, next);
      ExtendsTrans(t0, tPrev, t);
      current := next;
      bitPos := bitPos - 1;
    }
    assert c[..nBits] == c;
    ghost var walked := t;
    t := t.(sym := t.sym[current := symbol]);
    assert Labelled(t, labels) by {
      assert t.left == walked.left && t.right == walked.right;
    }
    CoveredDone(t, labels, codes, c);
    if PrefixFree(codes + [c]) && Stored(t0, codes, syms) {
      ForkInsertStored(t0, walked, t, labels, codes, syms, c, symbol, current);
    }
  }

  /** The symbol store at the end of a fresh code does not disturb the codes inserted before. */
  lemma ForkInsertStored(t0: Arena, walked: Arena, t: Arena, labels: seq<seq<bool>>,
                         codes: seq<seq<bool>>, syms: seq<byte>, c: seq<bool>, symbol: byte, current: int)
    requires Extends(t0, walked) && Labelled(walked, labels)
    requires 0 <= current < Size(walked) && labels[current] == c && Follow(walked, 0, c) == current
    requires t == walked.(sym := walked.sym[current := symbol])
    requires forall k :: 0 <= k < Size(t0) ==> walked.sym[k] == t0.sym[k]
    requires PrefixFree(codes + [c]) && Stored(t0, codes, syms)
    ensures Valid(t) && Stored(t, codes + [c], syms + [symbol])
  {
    var all := codes + [c];
    assert Valid(t);
    assert all[|codes|] == c;
    forall j | 0 <= j < |all| ensures Follow(t, 0, all[j]) >= 0 && t.sym[Follow(t, 0, all[j])] == (syms + [symbol])[j] {
      FollowSame(walked, t, 0, all[j]);
      if j < |codes| {
        assert all[j] == codes[j];
        FollowExtends(t0, walked, 0, codes[j]);
        var k := Follow(walked, 0, codes[j]);
        FollowLabel(walked, labels, 0, codes[j]);
        assert !(codes[j] <= c) by {
          assert all[j] == codes[j] && j != |codes|;
        }
        assert k != current;
      }
    }
  }

  /** Following a path ignores the symbols. */
  lemma {:induction false} FollowSame(t: Arena, u: Arena, k: int, p: seq<bool>)
    requires Valid(t) && Valid(u) && t.left == u.left && t.right == u.right && 0 <= k < Size(t)
    ensures Follow(t, k, p) == Follow(u, k, p)
    decreases |p|
  {
    if p != [] && Child(t, k, p[0]) != -1 {
      FollowSame(t, u, Child(t, k, p[0]), p[1..]);
    }
  }

  // ---------------------------------------------------------------------------
  // Whole headers

  function Codes(entries: seq<Entry>): (r: seq<seq<bool>>)
    ensures |r| == |entries| && forall j :: 0 <= j < |entries| ==> r[j] == EntryCode(entries[j])
  {
    seq(|entries|, j requires 0 <= j < |entries| => EntryCode(entries[j]))
  }

  function Symbols(entries: seq<Entry>): (r: seq<byte>)
    ensures |r| == |entries| && forall j :: 0 <= j < |entries| ==> r[j] == entries[j].symbol
  {
    seq(|entries|, j requires 0 <= j < |entries| => entries[j].symbol)
  }

  lemma CodesSnoc(entries: seq<Entry>, i: nat)
    requires i < |entries|
    ensures Codes(entries[..i + 1]) == Codes(entries[..i]) + [EntryCode(entries[i])]
    ensures Symbols(entries[..i + 1]) == Symbols(entries[..i]) + [entries[i].symbol]
  {
  }

  /** The tree decodes every entry's code to the entry's symbol. */
  predicate DecodesAll(t: Arena, entries: seq<Entry>)
    requires Valid(t)
  {
    forall j :: 0 <= j < |entries| ==> Decodes(t, EntryCode(entries[j]), entries[j].symbol)
  }

  /** A tree that decodes every entry decodes the code the encoders look up for any symbol with an entry. */
  lemma {:induction false} DecodesTableCode(t: Arena, entries: seq<Entry>, s: byte)
    requires Valid(t) && DecodesAll(t, entries)
    requires HasEntry(entries, s)
    ensures Decodes(t, TableCode(entries, s), s)
  {
    if entries[0].symbol != s {
      var i :| 0 <= i < |entries| && entries[i].symbol == s;
      assert entries[1..][i - 1] == entries[i];
      DecodesTableCode(t, entries[1..], s);
    }
  }

  /**
   * Fork decompress.c:174-211: every triple of the header is walked into a
   * tree that starts as a lone zeroed root. When the codes are non-empty
   * and prefix-free, the tree decodes each of them to its symbol.
   */
  method RebuildHuffmanTree(entries: seq<Entry>) returns (tree: Arena)
    ensures Valid(tree)
    ensures PrefixFree(Codes(entries)) && (forall j :: 0 <= j < |entries| ==> entries[j].nBits >= 1)
      ==> DecodesAll(tree, entries)
  {
    tree := EmptyTree();
    ghost var labels: seq<seq<bool>> := [[]];
    var i := 0;
    while i < |entries|
      invariant i <= |entries|
      invariant Valid(tree) && Labelled(tree, labels) && CoveredCodes(tree, labels, Codes(entries[..i]))
      invariant PrefixFree(Codes(entries)) ==> Stored(tree, Codes(entries[..i]), Symbols(entries[..i]))
    {
      var e := entries[i];
      ghost var before := tree;
      CodesSnoc(entries, i);
      if PrefixFree(Codes(entries)) {
        PrefixFreePrefix(Codes(entries), i + 1);
        assert Codes(entries)[..i + 1] == Codes(entries[..i + 1]);
      }
      tree, labels := ForkInsert(tree, e.symbol, e.bits, e.nBits, labels, Codes(entries[..i]), Symbols(entries[..i]));
      i := i + 1;
    }
    assert entries[..i] == entries;
    if PrefixFree(Codes(entries)) && (forall j :: 0 <= j < |entries| ==> entries[j].nBits >= 1) {
      forall j | 0 <= j < |entries| ensures Decodes(tree, EntryCode(entries[j]), entries[j].symbol) {
        StoredDecodes(tree, labels, Codes(entries), Symbols(entries), j);
      }
    }
  }

  lemma PrefixFreePrefix(codes: seq<seq<bool>>, n: nat)
    requires PrefixFree(codes) && n <= |codes|
    ensures PrefixFree(codes[..n])
  {
    forall i, j | 0 <= i < n && 0 <= j < n && i != j ensures !(codes[..n][i] <= codes[..n][j]) {
      assert codes[..n][i] == codes[i] && codes[..n][j] == codes[j];
    }
  }

  /**
   * The body of Serial's createTree loop (decompress.c:110-143, and Hilos
   * decompress.c:44-73): walk all but the last code bit, from the mask
   * 1 << (nBits-1) down to 2, allocating missing children, then hang a new
   * leaf holding the symbol by the last bit, replacing whatever was there.
   */
  method AttachEntry(t0: Arena, symbol: byte, bits: nat, nBits: nat,
                     ghost labels0: seq<seq<bool>>, ghost codes: seq<seq<bool>>, ghost syms: seq<byte>)
    returns (t: Arena, ghost labels: seq<seq<bool>>)
    requires nBits >= 1
    requires Valid(t0) && Labelled(t0, labels0) && CoveredCodes(t0, labels0, codes)
    ensures Valid(t) && Labelled(t, labels) && CoveredCodes(t, labels, codes + [CodeBits(bits, nBits)])
    ensures PrefixFree(codes + [CodeBits(bits, nBits)]) && Stored(t0, codes, syms)
      ==> Stored(t, codes + [CodeBits(bits, nBits)], syms + [symbol])
  {
    ghost var c := CodeBits(bits, nBits);
    var walked, cursor;
    ghost var walkedLabels;
    walked, walkedLabels, cursor := WalkCode(t0, bits, nBits, labels0, codes);
    CodeBitsAt(bits, nBits, nBits - 1);
    var bit := bits % 2 == 1;
    assert bit == c[|c| - 1];
    t := Hang(walked, cursor, bit, symbol);
    labels := walkedLabels + [c];
    AttachCovered(walked, walkedLabels, codes, c, cursor, symbol);
    if PrefixFree(codes + [c]) && Stored(t0, codes, syms) {
      AttachStored(t0, walked, walkedLabels, codes, syms, c, symbol, cursor);
    }
  }

  /**
   * The walk of createTree (Serial decompress.c:116-139): from the mask
   * 1 << (nBits-1) down to 2, follow the code's bits from the root,
   * allocating each missing child, and stop at the parent of the code's leaf.
   */
  method WalkCode(t0: Arena, bits: nat, nBits: nat, ghost labels0: seq<seq<bool>>, ghost codes: seq<seq<bool>>)
    returns (t: Arena, ghost labels: seq<seq<bool>>, cursor: int)
    requires nBits >= 1
    requires Valid(t0) && Labelled(t0, labels0) && CoveredCodes(t0, labels0, codes)
    ensures Walked(t0, t, labels, cursor, codes, CodeBits(bits, nBits), nBits - 1)
  {
    ghost var c := CodeBits(bits, nBits);
    t, labels := t0, labels0;
    cursor := 0;
    var mask := Pow2(nBits - 1);
    ghost var m: nat := nBits - 1;
    assert Walked(t0, t, labels, cursor, codes, c, 0) by {
      assert c[..0] == [];
    }
    while mask > 1
      invariant m < nBits && mask == Pow2(m)
      invariant Walked(t0, t, labels, cursor, codes, c, nBits - 1 - m)
      decreases mask
    {
      var bit := (bits / mask) % 2 == 1;
      assert bit == c[nBits - 1 - m] by {
        CodeBitsAt(bits, nBits, nBits - 1 - m);
      }
      t, labels, cursor := DescendCode(t0, t, labels, cursor, bit, codes, c, nBits - 1 - m);
      assert mask / 2 == Pow2(m - 1) by {
        Pow2Half(m);
      }
      mask := mask / 2;
      m := m - 1;
    }
  }

  /**
   * The walk has reached node cursor by the first i bits of c, every node
   * it added lies on c, and the nodes of t0 keep their children and symbols.
   */
  ghost predicate Walked(t0: Arena, t: Arena, labels: seq<seq<bool>>, cursor: int,
                         codes: seq<seq<bool>>, c: seq<bool>, i: nat)
  {
    && i <= |c| && Valid(t) && Labelled(t, labels) && Extends(t0, t) && 0 <= cursor < Size(t)
    && labels[cursor] == c[..i] && Follow(t, 0, c[..i]) == cursor && Covered(t, labels, codes, c, i)
    && forall k :: 0 <= k < Size(t0) ==> t.sym[k] == t0.sym[k]
  }

  /** One step of the walk: the node below the one reached by the code's first i bits. */
  method DescendCode(ghost t0: Arena, t: Arena, ghost labels: seq<seq<bool>>, cursor: int, bit: bool,
                     ghost codes: seq<seq<bool>>, ghost c: seq<bool>, ghost i: nat)
    returns (t': Arena, ghost labels': seq<seq<bool>>, cursor': int)
    requires i < |c| && bit == c[i] && Walked(t0, t, labels, cursor, codes, c, i)
    ensures Walked(t0, t', labels', cursor', codes, c, i + 1)
  {
    t', labels', cursor' := Descend(t, labels, cursor, bit);
    DescendStep(t, labels, t', labels', codes, c, i, cursor, cursor');
    ExtendsTrans(t0, t, t');
  }

  /** `cursor->right = current` (or left): a new leaf holding the symbol, replacing that child. */
  function Hang(t: Arena, cursor: int, bit: bool, symbol: byte): (r: Arena)
    requires Valid(t) && 0 <= cursor < Size(t)
    ensures Valid(r) && Size(r) == Size(t) + 1 && Child(r, cursor, bit) == Size(t)
    ensures IsLeaf(r, Size(t)) && r.sym[Size(t)] == symbol
    ensures r.sym[..Size(t)] == t.sym && Child(r, cursor, !bit) == Child(t, cursor, !bit)
    ensures forall k :: 0 <= k < Size(t) && k != cursor ==> r.left[k] == t.left[k] && r.right[k] == t.right[k]
  {
    var g := Arena(t.sym + [symbol], t.left + [-1], t.right + [-1]);
    if bit then g.(right := g.right[cursor := Size(t)]) else g.(left := g.left[cursor := Size(t)])
  }

  /** The tree after hanging the leaf stays labelled and covered. */
  lemma AttachCovered(walked: Arena, wl: seq<seq<bool>>, codes: seq<seq<bool>>, c: seq<bool>, cursor: int, symbol: byte)
    requires |c| >= 1 && Valid(walked) && Labelled(walked, wl) && Covered(walked, wl, codes, c, |c| - 1)
    requires 0 <= cursor < Size(walked) && wl[cursor] == c[..|c| - 1]
    ensures Labelled(Hang(walked, cursor, c[|c| - 1], symbol), wl + [c])
    ensures CoveredCodes(Hang(walked, cursor, c[|c| - 1], symbol), wl + [c], codes + [c])
  {
    var t, labels, leaf := Hang(walked, cursor, c[|c| - 1], symbol), wl + [c], Size(walked);
    InitLast(c);
    assert Labelled(t, labels);
    forall k | 0 < k < Size(t) ensures exists j :: 0 <= j < |codes + [c]| && labels[k] <= (codes + [c])[j] {
      assert (codes + [c])[|codes|] == c;
      if k < leaf {
        assert labels[k] == wl[k];
        if wl[k] <= c[..|c| - 1] {
          assert wl[k] <= c;
        } else {
          var j :| 0 <= j < |codes| && wl[k] <= codes[j];
          assert (codes + [c])[j] == codes[j];
        }
      }
    }
  }

  /**
   * With prefix-free codes the slot the leaf goes into was empty, so no
   * earlier path is cut off and every earlier code still leads to its symbol.
   */
  lemma AttachStored(t0: Arena, walked: Arena, wl: seq<seq<bool>>,
                     codes: seq<seq<bool>>, syms: seq<byte>, c: seq<bool>, symbol: byte, cursor: int)
    requires |c| >= 1 && Extends(t0, walked) && Labelled(walked, wl) && Covered(walked, wl, codes, c, |c| - 1)
    requires 0 <= cursor < Size(walked) && wl[cursor] == c[..|c| - 1]
    requires Follow(walked, 0, c[..|c| - 1]) == cursor
    requires forall k :: 0 <= k < Size(t0) ==> walked.sym[k] == t0.sym[k]
    requires PrefixFree(codes + [c]) && Stored(t0, codes, syms)
    ensures Stored(Hang(walked, cursor, c[|c| - 1], symbol), codes + [c], syms + [symbol])
  {
    var b := c[|c| - 1];
    var t := Hang(walked, cursor, b, symbol);
    InitLast(c);
    SlotFree(walked, wl, codes, c, cursor);
    HangExtends(walked, cursor, b, symbol);
    StoredExtends(t0, walked, codes, syms);
    StoredExtends(walked, t, codes, syms);
    FollowExtends(walked, t, 0, c[..|c| - 1]);
    FollowSnoc(t, 0, c[..|c| - 1], b);
    StoredSnoc(t, codes, syms, c, symbol);
  }

  lemma HangExtends(t: Arena, cursor: int, bit: bool, symbol: byte)
    requires Valid(t) && 0 <= cursor < Size(t) && Child(t, cursor, bit) == -1
    ensures Extends(t, Hang(t, cursor, bit, symbol))
    ensures forall k :: 0 <= k < Size(t) ==> Hang(t, cursor, bit, symbol).sym[k] == t.sym[k]
  {
    var r := Hang(t, cursor, bit, symbol);
    forall k | 0 <= k < Size(t) ensures r.sym[k] == t.sym[k] {
      assert r.sym[..Size(t)][k] == r.sym[k];
    }
  }

  /** Growing the tree without touching old symbols keeps every stored code. */
  lemma StoredExtends(t0: Arena, t: Arena, codes: seq<seq<bool>>, syms: seq<byte>)
    requires Extends(t0, t) && Stored(t0, codes, syms)
    requires forall k :: 0 <= k < Size(t0) ==> t.sym[k] == t0.sym[k]
    ensures Stored(t, codes, syms)
  {
    forall j | 0 <= j < |codes| ensures Follow(t, 0, codes[j]) >= 0 && t.sym[Follow(t, 0, codes[j])] == syms[j] {
      FollowExtends(t0, t, 0, codes[j]);
    }
  }

  lemma StoredSnoc(t: Arena, codes: seq<seq<bool>>, syms: seq<byte>, c: seq<bool>, symbol: byte)
    requires Valid(t) && Stored(t, codes, syms)
    requires Follow(t, 0, c) >= 0 && t.sym[Follow(t, 0, c)] == symbol
    ensures Stored(t, codes + [c], syms + [symbol])
  {
    var all := codes + [c];
    forall j | 0 <= j < |all| ensures Follow(t, 0, all[j]) >= 0 && t.sym[Follow(t, 0, all[j])] == (syms + [symbol])[j] {
      if j < |codes| {
        assert all[j] == codes[j];
      }
    }
  }

  /** The child slot the last bit selects is empty when the codes are prefix-free. */
  lemma SlotFree(walked: Arena, wl: seq<seq<bool>>, codes: seq<seq<bool>>, c: seq<bool>, cursor: int)
    requires |c| >= 1 && Valid(walked) && Labelled(walked, wl) && Covered(walked, wl, codes, c, |c| - 1)
    requires 0 <= cursor < Size(walked) && wl[cursor] == c[..|c| - 1]
    requires PrefixFree(codes + [c])
    ensures Child(walked, cursor, c[|c| - 1]) == -1
  {
    InitLast(c);
    var all := codes + [c];
    assert all[|codes|] == c;
    forall j | 0 <= j < |codes| ensures !(c <= codes[j]) {
      assert all[j] == codes[j];
    }
    forall k | 0 < k < Size(walked) ensures wl[k] != c {
      var lk := wl[k];
      assert lk <= c[..|c| - 1] ==> |lk| < |c|;
    }
  }

  /**
   * Serial decompress.c:108-145 and Hilos decompress.c:42-75: every triple
   * of the header hung into the tree, whose root main has set to symbol 0
   * with no children. When the codes are prefix-free, the tree decodes each
   * of them to its symbol.
   */
  method CreateTree(entries: seq<Entry>) returns (tree: Arena)
    requires forall j :: 0 <= j < |entries| ==> entries[j].nBits >= 1
    ensures Valid(tree)
    ensures PrefixFree(Codes(entries)) ==> DecodesAll(tree, entries)
  {
    tree := EmptyTree();
    ghost var labels: seq<seq<bool>> := [[]];
    var i := 0;
    while i < |entries|
      invariant i <= |entries|
      invariant Valid(tree) && Labelled(tree, labels) && CoveredCodes(tree, labels, Codes(entries[..i]))
      invariant PrefixFree(Codes(entries)) ==> Stored(tree, Codes(entries[..i]), Symbols(entries[..i]))
    {
      var e := entries[i];
      CodesSnoc(entries, i);
      if PrefixFree(Codes(entries)) {
        PrefixFreePrefix(Codes(entries), i + 1);
        assert Codes(entries)[..i + 1] == Codes(entries[..i + 1]);
      }
      tree, labels := AttachEntry(tree, e.symbol, e.bits, e.nBits, labels, Codes(entries[..i]), Symbols(entries[..i]));
      i := i + 1;
    }
    assert entries[..i] == entries;
    if PrefixFree(Codes(entries)) {
      forall j | 0 <= j < |entries| ensures Decodes(tree, EntryCode(entries[j]), entries[j].symbol) {
        StoredDecodes(tree, labels, Codes(entries), Symbols(entries), j);
      }
    }
  }

  /** Every entry's code is a path to a leaf of ht holding the entry's symbol. */
  predicate ReadOff(ht: HTree, entries: seq<Entry>)
  {
    forall j :: 0 <= j < |entries| ==> IsLeafPath(ht, EntryCode(entries[j]), entries[j].symbol)
  }

  /**
   * Distinct codes read off one tree are prefix-free, and all non-empty
   * when the tree is more than a leaf: what both rebuild methods need.
   */
  lemma ReadOffPrefixFree(ht: HTree, entries: seq<Entry>)
    requires ReadOff(ht, entries) && DistinctCodes(entries)
    ensures PrefixFree(Codes(entries))
    ensures ht.Node? ==> forall j :: 0 <= j < |entries| ==> entries[j].nBits >= 1
  {
    var codes := Codes(entries);
    forall i, j | 0 <= i < |codes| && 0 <= j < |codes| && i != j ensures !(codes[i] <= codes[j]) {
      if codes[i] <= codes[j] {
        LeafPathPrefix(ht, codes[i], codes[j], entries[i].symbol, entries[j].symbol);
      }
    }
    forall j | 0 <= j < |entries| ensures ht.Node? ==> entries[j].nBits >= 1 {
      LeafPathHeight(ht, EntryCode(entries[j]), entries[j].symbol);
    }
  }
}
