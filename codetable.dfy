/**
 * The symbol-sorted code table of Fork/Tabla.h (`insertElement`,
 * `findSymbol`, `createTable`), which Serial/compress.c repeats as
 * `insertarEnTabla`, `buscarSimbolo` and `crearTablaCodificacion`.
 */
module CodeTable {
  import opened Bits
  import opened Huffman

  /** One table node: the symbol, the code length and the code value, low `nBits` bits significant. */
  datatype Entry = Entry(symbol: byte, nBits: nat, bits: nat)

  /** The code an entry stands for, most significant bit first. */
  function EntryCode(e: Entry): seq<bool>
  {
    CodeBits(e.bits, e.nBits)
  }

  predicate SortedBySymbol(table: seq<Entry>)
  {
    forall i, j :: 0 <= i < j < |table| ==> table[i].symbol <= table[j].symbol
  }

  /** No two entries carry the same code. */
  predicate DistinctCodes(table: seq<Entry>)
  {
    forall i, j :: 0 <= i < |table| && 0 <= j < |table| && i != j ==> EntryCode(table[i]) != EntryCode(table[j])
  }

  // ---------------------------------------------------------------------------
  // insertElement

  /** The index of the first entry whose symbol is not below c. */
  function SymbolPos(table: seq<Entry>, c: byte): (k: nat)
    ensures k <= |table|
    ensures forall i :: 0 <= i < k ==> table[i].symbol < c
    ensures k < |table| ==> c <= table[k].symbol
  {
    if table == [] || c <= table[0].symbol then 0 else 1 + SymbolPos(table[1..], c)
  }

  /** The table with e spliced in before the first entry whose symbol is not below e's. */
  function Inserted(table: seq<Entry>, e: Entry): seq<Entry>
  {
    table[..SymbolPos(table, e.symbol)] + [e] + table[SymbolPos(table, e.symbol)..]
  }

  lemma InsertedSorted(table: seq<Entry>, e: Entry)
    requires SortedBySymbol(table)
    ensures SortedBySymbol(Inserted(table, e))
  {
    var k := SymbolPos(table, e.symbol);
    var r := Inserted(table, e);
    assert forall i :: 0 <= i < |r| ==> r[i] == if i < k then table[i] else if i == k then e else table[i - 1];
    forall i, j | 0 <= i < j < |r| ensures r[i].symbol <= r[j].symbol {
      if i == k && j > k {
        assert table[k] == r[k + 1];
      }
    }
  }

  /** Inserting keeps every entry and adds e, and no code is duplicated if e's code was new. */
  lemma InsertedElems(table: seq<Entry>, e: Entry)
    ensures |Inserted(table, e)| == |table| + 1
    ensures multiset(Inserted(table, e)) == multiset(table) + multiset{e}
    ensures DistinctCodes(table) && (forall i :: 0 <= i < |table| ==> EntryCode(table[i]) != EntryCode(e))
      ==> DistinctCodes(Inserted(table, e))
  {
    var k := SymbolPos(table, e.symbol);
    var r := Inserted(table, e);
    assert multiset(r) == multiset(table) + multiset{e} by {
      assert table == table[..k] + table[k..];
    }
    if DistinctCodes(table) && (forall i :: 0 <= i < |table| ==> EntryCode(table[i]) != EntryCode(e)) {
      forall i, j | 0 <= i < |r| && 0 <= j < |r| && i != j ensures EntryCode(r[i]) != EntryCode(r[j]) {
        InsertedAt(table, e, i);
        InsertedAt(table, e, j);
      }
    }
  }

  /** Where each entry of the table sits once e has been spliced in. */
  lemma InsertedAt(table: seq<Entry>, e: Entry, i: nat)
    requires i <= |table|
    ensures var k := SymbolPos(table, e.symbol);
      Inserted(table, e)[i] == if i < k then table[i] else if i == k then e else table[i - 1]
  {
  }

  // ---------------------------------------------------------------------------
  // findSymbol

  /** The code of the first entry holding c, or no bits when none does. */
  function TableCode(table: seq<Entry>, c: byte): seq<bool>
  {
    if table == [] then []
    else if table[0].symbol == c then EntryCode(table[0])
    else TableCode(table[1..], c)
  }

  /**
   * `findSymbol` / `buscarSimbolo`: the index of the first entry holding
   * symbol, or -1 (NULL) when no entry does.
   */
  method FindSymbol(table: seq<Entry>, symbol: byte) returns (r: int)
    ensures -1 <= r < |table|
    ensures r == -1 <==> forall k :: 0 <= k < |table| ==> table[k].symbol != symbol
    ensures r >= 0 ==> table[r].symbol == symbol && forall k :: 0 <= k < r ==> table[k].symbol != symbol
    ensures r >= 0 ==> EntryCode(table[r]) == TableCode(table, symbol)
    ensures r == -1 ==> TableCode(table, symbol) == []
  {
    var t := 0;
    while t < |table| && table[t].symbol != symbol
      invariant 0 <= t <= |table|
      invariant forall k :: 0 <= k < t ==> table[k].symbol != symbol
      invariant TableCode(table, symbol) == TableCode(table[t..], symbol)
    {
      assert table[t..][1..] == table[t + 1..];
      t := t + 1;
    }
    r := if t < |table| then t else -1;
  }

  // ---------------------------------------------------------------------------
  // createTable

  /** The entry createTable inserts for a leaf reached by path below a node reached by prefix. */
  function LeafEntry(prefix: seq<bool>, c: Code): Entry
  {
    Entry(c.sym, |prefix| + |c.path|, ValueOf(prefix + c.path))
  }

  /** The entries for the leaves below a node, in visiting order. */
  function NodeEntries(node: HTree, prefix: seq<bool>): (es: seq<Entry>)
    ensures |es| == |LeafCodes(node)|
  {
    seq(|LeafCodes(node)|, i requires 0 <= i < |LeafCodes(node)| => LeafEntry(prefix, LeafCodes(node)[i]))
  }

  /** A leaf's only entry is its path so far. */
  lemma NodeEntriesLeaf(node: HTree, prefix: seq<bool>)
    requires node.Leaf?
    ensures NodeEntries(node, prefix) == [Entry(node.sym, |prefix|, ValueOf(prefix))]
  {
    assert prefix + [] == prefix;
  }

  /** The table after inserting es one by one. */
  function InsertedAll(table: seq<Entry>, es: seq<Entry>): seq<Entry>
    decreases |es|
  {
    if es == [] then table else InsertedAll(Inserted(table, es[0]), es[1..])
  }

  lemma {:induction false} InsertedAllAppend(table: seq<Entry>, a: seq<Entry>, b: seq<Entry>)
    ensures InsertedAll(table, a + b) == InsertedAll(InsertedAll(table, a), b)
    decreases |a|
  {
    if a == [] {
      assert a + b == b;
    } else {
      assert (a + b)[1..] == a[1..] + b;
      InsertedAllAppend(Inserted(table, a[0]), a[1..], b);
    }
  }

  /** The entries of an internal node are its right subtree's (a 1 appended) followed by its left subtree's (a 0 appended). */
  lemma {:induction false} NodeEntriesSplit(node: HTree, prefix: seq<bool>)
    requires node.Node?
    ensures NodeEntries(node, prefix) == NodeEntries(node.right, prefix + [true]) + NodeEntries(node.left, prefix + [false])
  {
    var rs, ls := LeafCodes(node.right), LeafCodes(node.left);
    var a, b := NodeEntries(node.right, prefix + [true]), NodeEntries(node.left, prefix + [false]);
    var all, cs := NodeEntries(node, prefix), LeafCodes(node);
    assert cs == Prefixed(true, rs) + Prefixed(false, ls);
    assert |all| == |a + b|;
    forall i | 0 <= i < |all| ensures all[i] == (a + b)[i] {
      if i < |rs| {
        assert cs[i] == Prefixed(true, rs)[i] == Code(rs[i].sym, [true] + rs[i].path);
        assert prefix + ([true] + rs[i].path) == prefix + [true] + rs[i].path;
        assert (a + b)[i] == a[i];
      } else {
        var j := i - |rs|;
        assert cs[i] == Prefixed(false, ls)[j] == Code(ls[j].sym, [false] + ls[j].path);
        assert prefix + ([false] + ls[j].path) == prefix + [false] + ls[j].path;
        assert (a + b)[i] == b[j];
      }
    }
  }

  /** The global table (`table`, `tabla`), a list the builders splice entries into. */
  class Table {
    var entries: seq<Entry>

    constructor ()
      ensures entries == []
    {
      entries := [];
    }

    /**
     * `insertElement` / `insertarEnTabla`: walks past the entries with a
     * smaller symbol and links the new entry in there. The source passes
     * the code value as an `int`, so it must stay below 2^31.
     */
    method InsertElement(c: byte, nBits: nat, bits: nat)
      requires nBits < 256 && bits < Pow2(31)
      modifies this
      ensures entries == Inserted(old(entries), Entry(c, nBits, bits))
    {
      var p := 0;
      while p < |entries| && entries[p].symbol < c
        invariant 0 <= p <= |entries|
        invariant forall i :: 0 <= i < p ==> entries[i].symbol < c
      {
        p := p + 1;
      }
      SymbolPosIs(entries, c, p);
      entries := entries[..p] + [Entry(c, nBits, bits)] + entries[p..];
    }

    /**
     * `createTable` / `crearTablaCodificacion`: right subtree first with a 1
     * appended to the code, then the left subtree with a 0, and an entry for
     * each leaf. `prefix` is the path the arguments nBits and bits encode.
     */
    method CreateTable(node: HTree, nBits: nat, bits: nat, ghost prefix: seq<bool>)
      requires |prefix| == nBits && bits == ValueOf(prefix)
      requires nBits + Height(node) <= 31
      modifies this
      ensures entries == InsertedAll(old(entries), NodeEntries(node, prefix))
      decreases node
    {
      if node.Node? {
        ValueOfSnoc(prefix, true);
        CreateTable(node.right, nBits + 1, 2 * bits + 1, prefix + [true]);
        ValueOfSnoc(prefix, false);
        CreateTable(node.left, nBits + 1, 2 * bits, prefix + [false]);
        NodeEntriesSplit(node, prefix);
        InsertedAllAppend(old(entries), NodeEntries(node.right, prefix + [true]), NodeEntries(node.left, prefix + [false]));
      } else {
        ValueOfBound(prefix);
        Pow2Mono(nBits, 31);
        InsertElement(node.sym, nBits, bits);
        NodeEntriesLeaf(node, prefix);
      }
    }
  }

  lemma {:induction false} SymbolPosIs(table: seq<Entry>, c: byte, p: nat)
    requires p <= |table|
    requires forall i :: 0 <= i < p ==> table[i].symbol < c
    requires p < |table| ==> c <= table[p].symbol
    ensures SymbolPos(table, c) == p
  {
    if p > 0 {
      SymbolPosIs(table[1..], c, p - 1);
    }
  }

  // ---------------------------------------------------------------------------
  // The table built from a whole tree

  lemma {:induction false} InsertedAllElems(table: seq<Entry>, es: seq<Entry>)
    ensures multiset(InsertedAll(table, es)) == multiset(table) + multiset(es)
    ensures |InsertedAll(table, es)| == |table| + |es|
    ensures SortedBySymbol(table) ==> SortedBySymbol(InsertedAll(table, es))
    decreases |es|
  {
    if es != [] {
      InsertedElems(table, es[0]);
      if SortedBySymbol(table) {
        InsertedSorted(table, es[0]);
      }
      InsertedAllElems(Inserted(table, es[0]), es[1..]);
      assert es == [es[0]] + es[1..];
    }
  }

  /** Codes of table and es all different: inserting es one by one duplicates no code. */
  lemma {:induction false} InsertedAllDistinct(table: seq<Entry>, es: seq<Entry>)
    requires DistinctCodes(table) && DistinctCodes(es)
    requires forall i, j :: 0 <= i < |table| && 0 <= j < |es| ==> EntryCode(table[i]) != EntryCode(es[j])
    ensures DistinctCodes(InsertedAll(table, es))
    decreases |es|
  {
    if es != [] {
      var t' := Inserted(table, es[0]);
      InsertedElems(table, es[0]);
      var rest := es[1..];
      forall i, j | 0 <= i < |t'| && 0 <= j < |rest| ensures EntryCode(t'[i]) != EntryCode(rest[j]) {
        assert t'[i] in multiset(table) + multiset{es[0]} by {
          assert t'[i] in multiset(t');
        }
        if t'[i] in multiset(table) {
          var k :| 0 <= k < |table| && table[k] == t'[i];
          assert EntryCode(table[k]) != EntryCode(es[j + 1]);
        } else {
          assert t'[i] == es[0];
          assert EntryCode(es[0]) != EntryCode(es[j + 1]);
        }
      }
      assert DistinctCodes(rest) by {
        forall i, j | 0 <= i < |rest| && 0 <= j < |rest| && i != j ensures EntryCode(rest[i]) != EntryCode(rest[j]) {
          assert rest[i] == es[i + 1] && rest[j] == es[j + 1];
        }
      }
      InsertedAllDistinct(t', rest);
    }
  }

  /** The entries of a tree's leaves are its leaf paths, all different. */
  lemma NodeEntriesOfTree(ht: HTree)
    ensures forall i :: 0 <= i < |NodeEntries(ht, [])| ==>
      IsLeafPath(ht, EntryCode(NodeEntries(ht, [])[i]), NodeEntries(ht, [])[i].symbol)
    ensures DistinctCodes(NodeEntries(ht, []))
    ensures forall i :: 0 <= i < |NodeEntries(ht, [])| ==> NodeEntries(ht, [])[i].bits < Pow2(NodeEntries(ht, [])[i].nBits)
  {
    var es := NodeEntries(ht, []);
    var cs := LeafCodes(ht);
    forall i | 0 <= i < |es| ensures EntryCode(es[i]) == cs[i].path && es[i].symbol == cs[i].sym && es[i].bits < Pow2(es[i].nBits) {
      assert [] + cs[i].path == cs[i].path;
      CodeBitsOfValue(cs[i].path);
      ValueOfBound(cs[i].path);
    }
    forall i | 0 <= i < |es| ensures IsLeafPath(ht, EntryCode(es[i]), es[i].symbol) {
      LeafCodesAreLeafPaths(ht, i);
    }
    forall i, j | 0 <= i < |es| && 0 <= j < |es| && i != j ensures EntryCode(es[i]) != EntryCode(es[j]) {
      LeafCodesDistinct(ht, i, j);
    }
  }

  /** What createTable(tree, 0, 0) leaves in an empty table. */
  function TreeTable(ht: HTree): seq<Entry>
  {
    InsertedAll([], NodeEntries(ht, []))
  }

  /**
   * The table built from a tree holds one entry per leaf, sorted by symbol;
   * each entry's code is the path to a leaf holding its symbol, no code
   * repeats, and every leaf symbol has an entry.
   */
  lemma TreeTableProperties(ht: HTree)
    ensures |TreeTable(ht)| == LeafCount(ht)
    ensures SortedBySymbol(TreeTable(ht))
    ensures forall i :: 0 <= i < |TreeTable(ht)| ==> IsLeafPath(ht, EntryCode(TreeTable(ht)[i]), TreeTable(ht)[i].symbol)
    ensures DistinctCodes(TreeTable(ht))
    ensures forall s :: s in LeafSyms(ht) ==> HasEntry(TreeTable(ht), s)
  {
    var es := NodeEntries(ht, []);
    InsertedAllElems([], es);
    NodeEntriesOfTree(ht);
    InsertedAllDistinct([], es);
    LeafCodesCount(ht);
    TreeTablePaths(ht);
    TreeTableCovers(ht);
  }

  /** Every code in the table built from a tree leads to a leaf holding the entry's symbol. */
  lemma TreeTablePaths(ht: HTree)
    ensures forall i :: 0 <= i < |TreeTable(ht)| ==> IsLeafPath(ht, EntryCode(TreeTable(ht)[i]), TreeTable(ht)[i].symbol)
  {
    var es := NodeEntries(ht, []);
    var table := TreeTable(ht);
    NodeEntriesOfTree(ht);
    forall i | 0 <= i < |table| ensures IsLeafPath(ht, EntryCode(table[i]), table[i].symbol) {
      TreeTableFrom(ht, i);
    }
  }

  /** The table has an entry for symbol s. */
  predicate HasEntry(table: seq<Entry>, s: byte)
  {
    exists i :: 0 <= i < |table| && table[i].symbol == s
  }

  /** Every symbol at a leaf of the tree has an entry in the table built from it. */
  lemma TreeTableCovers(ht: HTree)
    ensures forall s :: s in LeafSyms(ht) ==> HasEntry(TreeTable(ht), s)
  {
    var es := NodeEntries(ht, []);
    forall s | s in LeafSyms(ht) ensures HasEntry(TreeTable(ht), s) {
      LeafCodesCover(ht, s);
      var k :| 0 <= k < |LeafCodes(ht)| && LeafCodes(ht)[k].sym == s;
      assert es[k].symbol == s;
      TreeTableHas(ht, k);
    }
  }

  /** Each entry the tree's leaves give is in the table. */
  lemma TreeTableHas(ht: HTree, k: nat)
    requires k < |NodeEntries(ht, [])|
    ensures exists i :: 0 <= i < |TreeTable(ht)| && TreeTable(ht)[i] == NodeEntries(ht, [])[k]
  {
    var es := NodeEntries(ht, []);
    InsertedAllElems([], es);
    assert es[k] in multiset(es);
    assert es[k] in multiset(TreeTable(ht));
  }

  /** Each entry of the table is one the tree's leaves give. */
  lemma TreeTableFrom(ht: HTree, i: nat)
    requires i < |TreeTable(ht)|
    ensures exists k :: 0 <= k < |NodeEntries(ht, [])| && NodeEntries(ht, [])[k] == TreeTable(ht)[i]
  {
    var es := NodeEntries(ht, []);
    InsertedAllElems([], es);
    assert TreeTable(ht)[i] in multiset(TreeTable(ht));
    assert TreeTable(ht)[i] in multiset(es);
  }

  /** Every entry of the table built from a tree holds its code value in its nBits low bits. */
  lemma TreeTableFits(ht: HTree)
    ensures forall i :: 0 <= i < |TreeTable(ht)| ==> TreeTable(ht)[i].bits < Pow2(TreeTable(ht)[i].nBits)
  {
    var table := TreeTable(ht);
    NodeEntriesOfTree(ht);
    forall i | 0 <= i < |table| ensures table[i].bits < Pow2(table[i].nBits) {
      TreeTableFrom(ht, i);
    }
  }

  /** The code of each byte as the encoders find it in the table: no bits for a byte without an entry. */
  function TableCodes(table: seq<Entry>): (codes: seq<seq<bool>>)
    ensures |codes| == 256 && forall c: byte :: codes[c] == TableCode(table, c)
  {
    seq(256, c requires 0 <= c < 256 => TableCode(table, c))
  }

  /** The code the encoders look up for a leaf symbol is the path to a leaf holding it. */
  lemma {:induction false} TableCodeIsLeafPath(table: seq<Entry>, ht: HTree, s: byte)
    requires forall i :: 0 <= i < |table| ==> IsLeafPath(ht, EntryCode(table[i]), table[i].symbol)
    requires HasEntry(table, s)
    ensures IsLeafPath(ht, TableCode(table, s), s)
  {
    if table[0].symbol != s {
      var i :| 0 <= i < |table| && table[i].symbol == s;
      assert table[1..][i - 1] == table[i];
      TableCodeIsLeafPath(table[1..], ht, s);
    }
  }
}
