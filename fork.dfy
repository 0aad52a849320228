/**
 * The Fork variant. Its compressor (Fork/compress.c) counts every byte of
 * the directory, builds one tree for all files, writes the table and one
 * record per file; its decompressor (Fork/decompress.c) reads the header,
 * rebuilds the tree from the table and decodes every record.
 */
module Fork {
  import opened Wrappers
  import opened Bits
  import opened Huffman
  import opened Frequencies
  import opened CodeTable
  import opened Buffers
  import opened DecodeTree
  import opened Decoding
  import opened Format

  // ---------------------------------------------------------------------------
  // Counting (compress.c:22-116)

  /** The globals `fileLength` and `size` and the list `processDirectory` fills. */
  class Counts {
    var list: seq<HTree>
    var fileLength: nat
    var size: nat

    /** The list is a count list whose counts add up to `fileLength`. */
    ghost predicate Valid()
      reads this
    {
      CountList(list) && ListWeight(list) == fileLength
    }

    constructor ()
      ensures Valid() && list == [] && fileLength == 0 && size == 0
    {
      list := [];
      fileLength := 0;
      size := 0;
    }

    /** `processFile`: every byte read is counted and adds one to `fileLength`. */
    method ProcessFile(data: seq<byte>)
      requires Valid()
      modifies this
      ensures Valid()
      ensures list == CountAll(old(list), data)
      ensures fileLength == old(fileLength) + |data| && size == old(size)
    {
      var i := 0;
      while i < |data|
        invariant i <= |data| && Valid()
        invariant list == CountAll(old(list), data[..i])
        invariant fileLength == old(fileLength) + i && size == old(size)
      {
        assert data[..i + 1][..i] == data[..i];
        CountedSorted(list, data[i]);
        CountedTotals(list, data[i]);
        fileLength := fileLength + 1;
        list := CountCharacter(list, data[i]);
        i := i + 1;
      }
      assert data[..i] == data;
    }

    /** `processDirectory`: every file in turn, each adding one to `size`. */
    method ProcessDirectory(files: seq<File>)
      requires Valid()
      modifies this
      ensures Valid()
      ensures list == CountAll(old(list), AllBytes(files))
      ensures fileLength == old(fileLength) + |AllBytes(files)| && size == old(size) + |files|
    {
      var i := 0;
      while i < |files|
        invariant i <= |files| && Valid()
        invariant list == CountAll(old(list), AllBytes(files[..i]))
        invariant fileLength == old(fileLength) + |AllBytes(files[..i])| && size == old(size) + i
      {
        AllBytesSnoc(files[..i], files[i]);
        assert files[..i + 1] == files[..i] + [files[i]];
        CountAllAppend(old(list), AllBytes(files[..i]), files[i].content);
        ProcessFile(files[i].content);
        size := size + 1;
        i := i + 1;
      }
      assert files[..i] == files;
    }
  }

  // ---------------------------------------------------------------------------
  // The tree (compress.c:337-352)

  /** The number of leaves below the nodes of a list. */
  function ListLeaves(list: seq<HTree>): nat
  {
    if list == [] then 0 else LeafCount(list[0]) + ListLeaves(list[1..])
  }

  lemma {:induction false} ListLeavesAppend(a: seq<HTree>, b: seq<HTree>)
    ensures ListLeaves(a + b) == ListLeaves(a) + ListLeaves(b)
  {
    if a == [] {
      assert a + b == b;
    } else {
      assert (a + b)[1..] == a[1..] + b;
      ListLeavesAppend(a[1..], b);
    }
  }

  /** The totals of a list with n spliced in at k. */
  lemma Spliced(rest: seq<HTree>, n: HTree, k: nat)
    requires k <= |rest|
    ensures ListWeight(rest[..k] + [n] + rest[k..]) == ListWeight(rest) + n.weight
    ensures ListSyms(rest[..k] + [n] + rest[k..]) == ListSyms(rest) + LeafSyms(n)
    ensures ListLeaves(rest[..k] + [n] + rest[k..]) == ListLeaves(rest) + LeafCount(n)
  {
    assert rest == rest[..k] + rest[k..];
    SplicedParts(rest[..k], n, rest[k..]);
  }

  /** The totals of a + [n] + b are those of a + b with n's added. */
  lemma SplicedParts(a: seq<HTree>, n: HTree, b: seq<HTree>)
    ensures ListWeight(a + [n] + b) == ListWeight(a + b) + n.weight
    ensures ListSyms(a + [n] + b) == ListSyms(a + b) + LeafSyms(n)
    ensures ListLeaves(a + [n] + b) == ListLeaves(a + b) + LeafCount(n)
  {
    ListWeightAppend(a + [n], b);
    ListWeightAppend(a, [n]);
    ListWeightAppend(a, b);
    ListLeavesAppend(a + [n], b);
    ListLeavesAppend(a, [n]);
    ListLeavesAppend(a, b);
    ListSingleton(n);
    assert [n][1..] == [];
  }

  /** The leaves of a list split after its first two nodes. */
  lemma FrontTwo(list: seq<HTree>)
    requires |list| >= 2
    ensures ListLeaves(list) == LeafCount(list[0]) + LeafCount(list[1]) + ListLeaves(list[2..])
  {
    assert list[1..][1..] == list[2..];
  }

  /** `sortList` (Nodos.h) reorders the list ascending by count; any such order of the same nodes. */
  predicate SortedCopy(list: seq<HTree>, sorted: seq<HTree>)
  {
    && SortedByWeight(sorted)
    && multiset(sorted) == multiset(list)
    && |sorted| == |list|
    && ListWeight(sorted) == ListWeight(list)
    && ListSyms(sorted) == ListSyms(list)
    && ListLeaves(sorted) == ListLeaves(list)
    && (AllWellWeighted(list) ==> AllWellWeighted(sorted))
  }

  /** One order meeting SortedCopy, so that one exists. */
  function InsertionSorted(list: seq<HTree>): seq<HTree>
  {
    if list == [] then [] else InsertByWeight(InsertionSorted(list[1..]), list[0])
  }

  lemma {:induction false} InsertionSortedTotals(list: seq<HTree>)
    ensures |InsertionSorted(list)| == |list|
    ensures ListWeight(InsertionSorted(list)) == ListWeight(list)
    ensures ListSyms(InsertionSorted(list)) == ListSyms(list)
    ensures ListLeaves(InsertionSorted(list)) == ListLeaves(list)
  {
    if list != [] {
      var tail := InsertionSorted(list[1..]);
      InsertionSortedTotals(list[1..]);
      Spliced(tail, list[0], InsertPos(tail, list[0].weight));
      InsertByWeightTotals(tail, list[0]);
      FrontOne(list);
    }
  }

  lemma FrontOne(list: seq<HTree>)
    requires list != []
    ensures ListWeight(list) == list[0].weight + ListWeight(list[1..])
    ensures ListSyms(list) == LeafSyms(list[0]) + ListSyms(list[1..])
    ensures ListLeaves(list) == LeafCount(list[0]) + ListLeaves(list[1..])
  {
  }

  lemma {:induction false} InsertionSortedOrder(list: seq<HTree>)
    ensures SortedByWeight(InsertionSorted(list))
    ensures multiset(InsertionSorted(list)) == multiset(list)
  {
    if list != [] {
      InsertionSortedOrder(list[1..]);
      InsertByWeightSorted(InsertionSorted(list[1..]), list[0]);
      assert list == [list[0]] + list[1..];
    }
  }

  lemma InsertionSortedCopy(list: seq<HTree>)
    ensures SortedCopy(list, InsertionSorted(list))
  {
    InsertionSortedTotals(list);
    InsertionSortedOrder(list);
    var r := InsertionSorted(list);
    if AllWellWeighted(list) {
      forall i | 0 <= i < |r| ensures WellWeighted(r[i]) {
        assert r[i] in multiset(list);
      }
    }
  }

  /** `sortList`: some reordering of the list ascending by count. */
  method SortList(list: seq<HTree>) returns (sorted: seq<HTree>)
    ensures SortedCopy(list, sorted)
  {
    InsertionSortedCopy(list);
    sorted :| SortedCopy(list, sorted);
  }

  /**
   * The merge loop of main: the lightest node becomes the right child and
   * the next one the left child of a node weighing their sum, which
   * `insertInOrder` (Nodos.h, not part of this model) puts back at some
   * place that keeps the list ascending by count.
   */
  method MergeTree(list: seq<HTree>) returns (tree: seq<HTree>)
    requires SortedByWeight(list) && AllWellWeighted(list)
    ensures |tree| == if list == [] then 0 else 1
    ensures ListWeight(tree) == ListWeight(list) && ListSyms(tree) == ListSyms(list)
    ensures ListLeaves(tree) == ListLeaves(list)
    ensures AllWellWeighted(tree)
    ensures |list| >= 2 ==> tree[0].Node?
  {
    tree := list;
    while |tree| >= 2
      invariant MergeInvariant(list, tree)
      decreases |tree|
    {
      var right := tree[0];
      var left := tree[1];
      var newNode := Node(left.weight + right.weight, left, right);
      var rest := tree[2..];
      assert SortedByWeight(rest) by {
        forall i, j | 0 <= i < j < |rest| ensures rest[i].weight <= rest[j].weight {
          assert rest[i] == tree[i + 2] && rest[j] == tree[j + 2];
        }
      }
      var next, k := InsertInOrder(rest, newNode);
      MergeStep(list, tree, k, next);
      tree := next;
    }
  }

  /** What the merge loop keeps: the nodes stay ordered and well weighted and carry the same totals. */
  predicate MergeInvariant(list: seq<HTree>, tree: seq<HTree>)
  {
    && SortedByWeight(tree) && AllWellWeighted(tree)
    && ListWeight(tree) == ListWeight(list) && ListSyms(tree) == ListSyms(list)
    && ListLeaves(tree) == ListLeaves(list)
    && (tree == []) == (list == [])
    && (|list| >= 2 ==> |tree| >= 2 || tree[0].Node?)
  }

  /** `insertInOrder` (Nodos.h): n goes in at some place that keeps the list ascending by count. */
  method InsertInOrder(rest: seq<HTree>, n: HTree) returns (next: seq<HTree>, k: nat)
    requires SortedByWeight(rest)
    ensures k <= |rest| && next == rest[..k] + [n] + rest[k..] && SortedByWeight(next)
  {
    InsertByWeightSorted(rest, n);
    assert SortedByWeight(rest[..InsertPos(rest, n.weight)] + [n] + rest[InsertPos(rest, n.weight)..]);
    k :| 0 <= k <= |rest| && SortedByWeight(rest[..k] + [n] + rest[k..]);
    next := rest[..k] + [n] + rest[k..];
  }

  /** One pass of the merge loop keeps MergeInvariant. */
  lemma MergeStep(list: seq<HTree>, tree: seq<HTree>, k: nat, next: seq<HTree>)
    requires MergeInvariant(list, tree) && |tree| >= 2 && k <= |tree| - 2
    requires var n := Node(tree[1].weight + tree[0].weight, tree[1], tree[0]);
      next == tree[2..][..k] + [n] + tree[2..][k..] && SortedByWeight(next)
    ensures MergeInvariant(list, next) && |next| == |tree| - 1
  {
    var n := Node(tree[1].weight + tree[0].weight, tree[1], tree[0]);
    var rest := tree[2..];
    FrontTwo(tree);
    ListFirstTwo(tree);
    Spliced(rest, n, k);
    forall i | 0 <= i < |next| ensures WellWeighted(next[i]) {
      if i < k { assert next[i] == tree[i + 2]; }
      else if i > k { assert next[i] == tree[i + 1]; }
    }
    assert next[k] == n;
  }


  /** No two leaves of a count list share a symbol, so it holds at most 256. */
  lemma {:induction false} CountListShort(list: seq<HTree>)
    requires CountList(list)
    ensures |list| <= 256 && ListLeaves(list) == |list|
  {
    if list != [] {
      forall i | 0 <= i < |list| ensures list[i].sym >= i {
        SymAtLeast(list, i);
      }
      assert list[|list| - 1].sym >= |list| - 1;
      CountListShort(list[1..]);
    }
  }

  lemma {:induction false} SymAtLeast(list: seq<HTree>, i: nat)
    requires CountList(list) && i < |list|
    ensures list[i].sym >= i
  {
    if i > 0 {
      SymAtLeast(list, i - 1);
    }
  }

  /**
   * main's first half: the counts of every file, sorted by count, merged
   * into one tree whose leaves are the distinct bytes of the directory.
   */
  method BuildTree(files: seq<File>) returns (tree: seq<HTree>, fileLength: nat, size: nat)
    ensures fileLength == |AllBytes(files)| && size == |files|
    ensures |tree| == if AllBytes(files) == [] then 0 else 1
    ensures ListWeight(tree) == |AllBytes(files)| && ListSyms(tree) == Elements(AllBytes(files))
    ensures ListLeaves(tree) <= 256 && AllWellWeighted(tree)
  {
    var counts := new Counts();
    counts.ProcessDirectory(files);
    CountAllProperties([], AllBytes(files));
    var list := counts.list;
    CountListShort(list);
    assert AllWellWeighted(list);
    assert list != [] ==> ListWeight(list) >= list[0].weight >= 1;
    var sorted := SortList(list);
    tree := MergeTree(sorted);
    fileLength := counts.fileLength;
    size := counts.size;
  }

  // ---------------------------------------------------------------------------
  // Records (compress.c:118-212)

  /** The record written for one file. */
  function ForkRecord(table: seq<Entry>, f: File): seq<byte>
  {
    ForkRecordBytes(f.name, |f.content|, Payload(table, f.content))
  }

  /** The records of all files, in order. */
  function ForkRecords(table: seq<Entry>, files: seq<File>): seq<byte>
  {
    if files == [] then [] else ForkRecord(table, files[0]) + ForkRecords(table, files[1..])
  }

  lemma {:induction false} ForkRecordsSnoc(table: seq<Entry>, files: seq<File>, f: File)
    ensures ForkRecords(table, files + [f]) == ForkRecords(table, files) + ForkRecord(table, f)
  {
    if files == [] {
      assert [f][1..] == [];
    } else {
      assert (files + [f])[1..] == files[1..] + [f];
      ForkRecordsSnoc(table, files[1..], f);
    }
  }

  /**
   * compress.c:174-186: one bit shifted into the accumulator `byte`, which
   * goes into the buffer once it holds eight bits.
   */
  method ShiftIn(buffer: DoublingBuffer<byte>, pending: nat, nBits: nat, compressedBytes: nat, bit: bool, ghost emitted: seq<bool>)
    returns (pending': nat, nBits': nat, compressedBytes': nat)
    requires buffer.Valid() && Accumulating(buffer.Contents, pending, nBits, emitted) && compressedBytes == buffer.size
    modifies buffer, buffer.data
    ensures buffer.Valid() && Accumulating(buffer.Contents, pending', nBits', emitted + [bit])
    ensures compressedBytes' == buffer.size
    ensures buffer.data == old(buffer.data) || fresh(buffer.data)
  {
    PushBit(buffer.Contents, pending, nBits, emitted, bit);
    pending' := 2 * pending + (if bit then 1 else 0);
    nBits' := nBits + 1;
    compressedBytes' := compressedBytes;
    if nBits' == 8 {
      buffer.Push(pending');
      compressedBytes' := compressedBytes' + 1;
      pending' := 0;
      nBits' := 0;
    }
  }

  /** compress.c:172-187: the bits of one code, from bit nBits - 1 down to bit 0. */
  method EmitCode(buffer: DoublingBuffer<byte>, pending: nat, nBits: nat, compressedBytes: nat, entry: Entry, ghost e: seq<bool>)
    returns (pending': nat, nBits': nat, compressedBytes': nat)
    requires buffer.Valid() && Accumulating(buffer.Contents, pending, nBits, e) && compressedBytes == buffer.size
    modifies buffer, buffer.data
    ensures buffer.Valid() && Accumulating(buffer.Contents, pending', nBits', e + EntryCode(entry))
    ensures compressedBytes' == buffer.size
    ensures buffer.data == old(buffer.data) || fresh(buffer.data)
  {
    ghost var code := EntryCode(entry);
    ghost var emitted := e;
    pending', nBits', compressedBytes' := pending, nBits, compressedBytes;
    var k: int := entry.nBits - 1;
    assert e + code[..0] == e;
    while k >= 0
      invariant -1 <= k < entry.nBits
      invariant buffer.Valid() && (buffer.data == old(buffer.data) || fresh(buffer.data))
      invariant Accumulating(buffer.Contents, pending', nBits', emitted)
      invariant emitted == e + code[..entry.nBits - 1 - k]
      invariant compressedBytes' == buffer.size
    {
      ghost var j := entry.nBits - 1 - k;
      CodeBitsAt(entry.bits, entry.nBits, j);
      var bit := BitAt(entry.bits, k);
      pending', nBits', compressedBytes' := ShiftIn(buffer, pending', nBits', compressedBytes', bit, emitted);
      TakeSnoc(code, j);
      emitted := emitted + [bit];
      k := k - 1;
    }
    assert code[..entry.nBits] == code;
  }

  /** The loop of compressFile (compress.c:165-188): every byte's code goes into the buffer, bit by bit. */
  method EncodeData(table: seq<Entry>, data: seq<byte>, buffer: DoublingBuffer<byte>)
    returns (pending: nat, nBits: nat, compressedBytes: nat)
    requires buffer.Valid() && buffer.Contents == [] && buffer.size == 0
    modifies buffer, buffer.data
    ensures buffer.Valid() && Accumulating(buffer.Contents, pending, nBits, Encode(TableCodes(table), data))
    ensures compressedBytes == buffer.size
    ensures buffer.data == old(buffer.data) || fresh(buffer.data)
  {
    ghost var codes := TableCodes(table);
    pending, nBits, compressedBytes := 0, 0, 0;
    ghost var e: seq<bool> := [];
    AccumulatingStart();
    var i := 0;
    while i < |data|
      invariant i <= |data|
      invariant buffer.Valid() && (buffer.data == old(buffer.data) || fresh(buffer.data))
      invariant Accumulating(buffer.Contents, pending, nBits, e)
      invariant e == Encode(codes, data[..i])
      invariant compressedBytes == buffer.size
    {
      var node := FindSymbol(table, data[i]);
      assert data[..i + 1][..i] == data[..i];
      if node >= 0 {
        pending, nBits, compressedBytes := EmitCode(buffer, pending, nBits, compressedBytes, table[node], e);
      } else {
        assert e + [] == e;
      }
      e := e + TableCode(table, data[i]);
      i := i + 1;
    }
    assert data[..i] == data;
  }

  /**
   * `compressFile`: the name, the byte count, then every byte's code into
   * the buffer (a byte without an entry is skipped), the last partial byte
   * shifted up to the top bits, then the payload length and the payload.
   */
  method CompressFile(table: seq<Entry>, name: seq<byte>, data: seq<byte>) returns (record: seq<byte>)
    ensures record == ForkRecordBytes(name, |data|, Payload(table, data))
  {
    ghost var codes := TableCodes(table);
    var pending, nBits, compressedBytes;
    var totalCharacters := 0;
    var buffer := new DoublingBuffer<byte>(1024);
    record := LE(|name|, 4) + name;
    var i := 0;
    while i < |data|
      invariant i <= |data| && totalCharacters == i
    {
      totalCharacters := totalCharacters + 1;
      i := i + 1;
    }
    record := record + LE(totalCharacters, 8);
    pending, nBits, compressedBytes := EncodeData(table, data, buffer);
    compressedBytes := FlushLast(buffer, pending, nBits, compressedBytes, Encode(codes, data));
    var payload := buffer.data[..buffer.size];
    assert payload == Payload(table, data);
    record := record + LE(compressedBytes, 8) + payload;
  }

  /** compress.c:191-199: the last, partly filled byte, shifted to the top and written. */
  method FlushLast(buffer: DoublingBuffer<byte>, pending: nat, nBits: nat, compressedBytes: nat, ghost e: seq<bool>)
    returns (compressedBytes': nat)
    requires buffer.Valid() && Accumulating(buffer.Contents, pending, nBits, e) && compressedBytes == buffer.size
    modifies buffer, buffer.data
    ensures buffer.Valid() && buffer.Contents == Pack(e) && compressedBytes' == buffer.size
  {
    ghost var out := buffer.Contents;
    Flush(out, pending, nBits, e);
    compressedBytes' := compressedBytes;
    if nBits > 0 {
      var last: byte := ShiftUp(pending, nBits);
      buffer.Push(last);
      assert buffer.Contents == out + [last];
      compressedBytes' := compressedBytes' + 1;
    }
  }

  /**
   * The second half of main: the table read off the tree (`createTable`),
   * one record per file (`compress`, whose children each run
   * `compressFile`, and `appendTempFiles` in file order), after the header.
   */
  method WriteArchive(files: seq<File>, ht: HTree, size: nat, fileLength: nat) returns (archive: seq<byte>)
    requires Height(ht) <= 31
    ensures archive == HeaderBytes(size, fileLength, TreeTable(ht)) + ForkRecords(TreeTable(ht), files)
  {
    var table := new Table();
    table.CreateTable(ht, 0, 0, []);
    var entries := table.entries;
    var records: seq<byte> := [];
    var i := 0;
    while i < |files|
      invariant i <= |files|
      invariant records == ForkRecords(entries, files[..i])
    {
      var record := CompressFile(entries, files[i].name, files[i].content);
      ForkRecordsSnoc(entries, files[..i], files[i]);
      assert files[..i + 1] == files[..i] + [files[i]];
      records := records + record;
      i := i + 1;
    }
    assert files[..i] == files;
    var header := WriteHeader(size, fileLength, entries);
    archive := header + records;
  }

  /** The archive the compressor writes for files with tree ht. */
  function ForkArchive(files: seq<File>, ht: HTree): seq<byte>
  {
    HeaderBytes(|files|, |AllBytes(files)|, TreeTable(ht)) + ForkRecords(TreeTable(ht), files)
  }

  /**
   * The whole compressor. An empty directory leaves the tree NULL, which
   * `createTable` dereferences, and codes longer than 31 bits overflow the
   * `int` it builds them in: both are None here.
   */
  method Compress(files: seq<File>) returns (archive: Option<seq<byte>>, ht: HTree)
    ensures archive.None? <==> AllBytes(files) == [] || Height(ht) > 31
    ensures archive.Some? ==> archive.value == ForkArchive(files, ht)
    ensures AllBytes(files) != [] ==>
      && LeafSyms(ht) == Elements(AllBytes(files)) && LeafCount(ht) <= 256
      && WellWeighted(ht) && ht.weight == |AllBytes(files)|
  {
    var tree, fileLength, size := BuildTree(files);
    if tree == [] {
      ht := Leaf(0, 0);
      archive := None;
      return;
    }
    var root := tree[0];
    ht := root;
    assert tree == [root] && tree[1..] == [];
    if Height(root) > 31 {
      archive := None;
      return;
    }
    var bytes := WriteArchive(files, root, size, fileLength);
    archive := Some(bytes);
  }

  // ---------------------------------------------------------------------------
  // The decompressor (decompress.c)

  /**
   * decompress.c reads each triple's length into a `char`: a byte of 128 or
   * more is negative, so the walk of lines 189-205 takes no step and the
   * symbol lands on the node the walk started from.
   */
  function ForkEntry(e: Entry): (r: Entry)
    ensures r.symbol == e.symbol && r.bits == e.bits
    ensures r.nBits == if e.nBits >= 128 then 0 else e.nBits
  {
    if e.nBits >= 128 then e.(nBits := 0) else e
  }

  /** The value a byte takes in the `char` decompress.c reads the length into. */
  function SignedChar(b: nat): int
    requires b < 256
  {
    if b < 128 then b else b - 256
  }

  /**
   * The loop `for (bitPos = nBits - 1; bitPos >= 0; bitPos--)` over the
   * signed length walks as many bits as the code ForkEntry keeps: none for
   * a negative length, whose symbol is then stored at the root.
   */
  lemma ForkEntryWalk(e: Entry)
    requires e.nBits < 256
    ensures |EntryCode(ForkEntry(e))| == if SignedChar(e.nBits) < 0 then 0 else SignedChar(e.nBits)
    ensures e.nBits >= 128 ==> EntryCode(ForkEntry(e)) == []
    ensures e.nBits < 128 ==> EntryCode(ForkEntry(e)) == EntryCode(e)
  {
  }

  function ForkEntries(es: seq<Entry>): (r: seq<Entry>)
    ensures |r| == |es| && forall j :: 0 <= j < |es| ==> r[j] == ForkEntry(es[j])
  {
    seq(|es|, j requires 0 <= j < |es| => ForkEntry(es[j]))
  }

  /** decompress.c:128-145: n records read one after the other; None when one is cut short. */
  function ParseBooks(data: seq<byte>, n: int): Option<seq<Book>>
    decreases if n < 0 then 0 else n
  {
    if n <= 0 then Some([])
    else
      match ParseForkRecord(data)
      case None => None
      case Some((b, rest)) =>
        match ParseBooks(rest, n - 1)
        case None => None
        case Some(bs) => Some([b] + bs)
  }

  /** decompress.c:148-157: every book decoded with the one tree; None when any walk leaves it. */
  function DecodeBooks(tree: Arena, books: seq<Book>): Option<seq<File>>
    requires Valid(tree)
  {
    if books == [] then Some([])
    else
      match ForkRun(tree, 0, Unpack(books[0].compressedData), Int32Of(books[0].totalCharacters))
      case None => None
      case Some(content) =>
        match DecodeBooks(tree, books[1..])
        case None => None
        case Some(fs) => Some([File(books[0].title, content)] + fs)
  }

  /**
   * decompress.c:188's `bits >> bitPos` on a 64-bit `unsigned long` is
   * defined only for a shift below 64, so only for lengths of 64 or less.
   */
  predicate ForkShiftsDefined(es: seq<Entry>)
  {
    forall j :: 0 <= j < |es| ==> es[j].nBits <= 64
  }

  /**
   * The files decompress.c recreates from an archive, decoding with `tree`;
   * None when a triple's length makes the rebuild shift by 64 or more.
   */
  function ForkDecoded(tree: Arena, archive: seq<byte>): Option<seq<File>>
    requires Valid(tree)
  {
    match ParseHeader(archive)
    case None => None
    case Some((h, rest)) =>
      if !ForkShiftsDefined(ForkEntries(h.entries)) then None
      else
        match ParseBooks(rest, h.fileCount)
        case None => None
        case Some(books) => DecodeBooks(tree, books)
  }

  /** The tree rebuilt from the archive's table decodes every triple whenever the codes allow it. */
  predicate RebuiltFrom(tree: Arena, archive: seq<byte>)
    requires Valid(tree)
  {
    match ParseHeader(archive)
    case None => true
    case Some((h, _)) =>
      var es := ForkEntries(h.entries);
      PrefixFree(Codes(es)) && (forall j :: 0 <= j < |es| ==> es[j].nBits >= 1) ==> DecodesAll(tree, es)
  }

  function ThenBooks(bs: seq<Book>, r: Option<seq<Book>>): Option<seq<Book>>
  {
    match r
    case None => None
    case Some(x) => Some(bs + x)
  }

  lemma ThenBooksNil(r: Option<seq<Book>>)
    ensures ThenBooks([], r) == r
  {
    if r.Some? {
      assert [] + r.value == r.value;
    }
  }

  /** Reading one more record moves its book from the parse still to do to the books read. */
  lemma ParseBooksStep(books: seq<Book>, rest: seq<byte>, n: int, book: Book, after: seq<byte>)
    requires n > 0 && ParseForkRecord(rest) == Some((book, after))
    ensures ThenBooks(books, ParseBooks(rest, n)) == ThenBooks(books + [book], ParseBooks(after, n - 1))
  {
    if ParseBooks(after, n - 1).Some? {
      assert books + ([book] + ParseBooks(after, n - 1).value) == books + [book] + ParseBooks(after, n - 1).value;
    }
  }

  /** decompress.c:128-145: the records, one after the other. */
  method ReadBooks(data: seq<byte>, size: int) returns (r: Option<seq<Book>>)
    ensures r == ParseBooks(data, size)
  {
    var rest := data;
    var books: seq<Book> := [];
    ThenBooksNil(ParseBooks(rest, size));
    var i := 0;
    while i < size
      invariant 0 <= i && (size >= 0 ==> i <= size)
      invariant ParseBooks(data, size) == ThenBooks(books, ParseBooks(rest, size - i))
      decreases size - i
    {
      var record := ParseForkRecord(rest);
      if record.None? {
        return None;
      }
      var book := record.value.0;
      var after := record.value.1;
      ParseBooksStep(books, rest, size - i, book, after);
      books := books + [book];
      rest := after;
      i := i + 1;
    }
    assert books + [] == books;
    r := Some(books);
  }

  /** decompress.c:148-157: one child per book, each running `decompressBook` with the shared tree. */
  method DecompressBooks(tree: Arena, books: seq<Book>) returns (r: Option<seq<File>>)
    requires Valid(tree)
    ensures r == DecodeBooks(tree, books)
  {
    var files: seq<File> := [];
    var j := 0;
    assert books[0..] == books;
    assert ThenFiles([], DecodeBooks(tree, books)) == DecodeBooks(tree, books) by {
      if DecodeBooks(tree, books).Some? {
        assert [] + DecodeBooks(tree, books).value == DecodeBooks(tree, books).value;
      }
    }
    while j < |books|
      invariant j <= |books|
      invariant DecodeBooks(tree, books) == ThenFiles(files, DecodeBooks(tree, books[j..]))
    {
      var book := books[j];
      var content := DecompressBook(tree, book.totalCharacters, |book.compressedData|, book.compressedData);
      assert book.compressedData[..|book.compressedData|] == book.compressedData;
      assert books[j..][1..] == books[j + 1..];
      if content.None? {
        return None;
      }
      var tail := DecodeBooks(tree, books[j + 1..]);
      if tail.Some? {
        assert files + ([File(book.title, content.value)] + tail.value) == files + [File(book.title, content.value)] + tail.value;
      }
      files := files + [File(book.title, content.value)];
      j := j + 1;
    }
    assert files + [] == files;
    r := Some(files);
  }

  /**
   * `decompress`: the header, the tree rebuilt from its triples (no result
   * when a length would shift by 64 or more), the records, then each book
   * decoded into its file. The rebuilt tree is
   * returned beside the files, so that the contract can say what it decodes.
   */
  method Decompress(archive: seq<byte>) returns (r: Option<seq<File>>, tree: Arena)
    ensures Valid(tree) && RebuiltFrom(tree, archive)
    ensures r == ForkDecoded(tree, archive)
  {
    var parsed := ParseHeader(archive);
    if parsed.None? {
      tree := EmptyTree();
      r := None;
      return;
    }
    var header := parsed.value.0;
    var huffmanTree := RebuildHuffmanTree(ForkEntries(header.entries));
    tree := huffmanTree;
    if !ForkShiftsDefined(ForkEntries(header.entries)) {
      r := None;
      return;
    }
    var books := ReadBooks(parsed.value.1, header.fileCount);
    if books.None? {
      r := None;
      return;
    }
    r := DecompressBooks(huffmanTree, books.value);
  }

  // ---------------------------------------------------------------------------
  // The round trip

  /**
   * What the round trip needs of the files and of the tree: two leaves or
   * more (a lone leaf gets the empty code, so its file's payload is empty),
   * codes that fit the `int` createTable builds them in, counts that fit
   * the header's and the decoder's integers, names that fit `title`, and a
   * leaf for every byte.
   */
  predicate ForkReady(files: seq<File>, ht: HTree)
  {
    && ht.Node? && Height(ht) <= 31 && LeafCount(ht) < Int32Limit
    && |files| < Int32Limit && |AllBytes(files)| < Int64Limit
    && forall k :: 0 <= k < |files| ==>
         && |files[k].name| <= 255 && |files[k].content| < Int32Limit
         && Elements(files[k].content) <= LeafSyms(ht)
  }

  /** The table of a tree of height 31 or less is also read back unchanged by the signed length read. */
  lemma TableFacts(ht: HTree)
    requires ht.Node? && Height(ht) <= 31
    ensures FitsTriples(TreeTable(ht))
    ensures ForkEntries(TreeTable(ht)) == TreeTable(ht)
    ensures PrefixFree(Codes(TreeTable(ht)))
    ensures forall j :: 0 <= j < |TreeTable(ht)| ==> TreeTable(ht)[j].nBits >= 1
    ensures forall c: byte :: |TableCodes(TreeTable(ht))[c]| <= 31
  {
    TreeTableFacts(ht);
    assert ForkEntries(TreeTable(ht)) == TreeTable(ht);
  }

  /** The lengths of a table of height 31 or less, read back, make only defined shifts. */
  lemma ShiftsDefinedOf(ht: HTree)
    requires ht.Node? && Height(ht) <= 31
    ensures ForkShiftsDefined(ForkEntries(TreeTable(ht)))
  {
    TreeTableFacts(ht);
    assert ForkEntries(TreeTable(ht)) == TreeTable(ht);
  }

  /** A file's payload decodes back to the file's bytes. */
  lemma FileRoundTrip(tree: Arena, table: seq<Entry>, data: seq<byte>)
    requires Valid(tree) && DecodesAll(tree, table) && |data| < Int32Limit
    requires InTable(table, data)
    ensures ForkRun(tree, 0, Unpack(Payload(table, data)), Int32Of(|data|)) == Some(data)
  {
    var codes := TableCodes(table);
    var e := Encode(codes, data);
    UnpackPack(e);
    if data == [] {
      assert e == [];
    } else {
      forall i | 0 <= i < |data| ensures Decodes(tree, codes[data[i]], data[i]) {
        DecodesTableCode(tree, table, data[i]);
      }
      RunEncodeExact(tree, codes, data, Zeros(8 * CeilDiv8(|e|) - |e|));
      ForkRunIsRun(tree, 0, Unpack(Payload(table, data)), |data|);
    }
  }

  /** The books a reader stores for the records of files. */
  function BooksOf(table: seq<Entry>, files: seq<File>): (books: seq<Book>)
    ensures |books| == |files|
    ensures forall k :: 0 <= k < |files| ==>
      books[k] == Book(files[k].name, |files[k].content|, Payload(table, files[k].content))
  {
    seq(|files|, k requires 0 <= k < |files| => Book(files[k].name, |files[k].content|, Payload(table, files[k].content)))
  }

  /** The records of files read back as their books. */
  lemma {:induction false} ParseBooksRecords(table: seq<Entry>, files: seq<File>)
    requires forall k :: 0 <= k < |files| ==>
      |files[k].name| <= 255 && |files[k].content| < Pow256(8) && |Payload(table, files[k].content)| < Pow256(8)
    ensures ParseBooks(ForkRecords(table, files), |files|) == Some(BooksOf(table, files))
  {
    if files != [] {
      var f := files[0];
      ParseForkRecordBytes(f.name, |f.content|, Payload(table, f.content), ForkRecords(table, files[1..]));
      ParseBooksRecords(table, files[1..]);
      BooksOfCons(table, files);
      ParseBooksCons(ForkRecords(table, files), ForkRecords(table, files[1..]), |files|, BooksOf(table, files));
    }
  }

  /** The books of files are the first file's book and then the rest's. */
  lemma BooksOfCons(table: seq<Entry>, files: seq<File>)
    requires files != []
    ensures BooksOf(table, files)[1..] == BooksOf(table, files[1..])
  {
  }

  /** Reading n >= 1 books: the first record, then n - 1 more from what follows it. */
  lemma {:induction false} ParseBooksCons(data: seq<byte>, rest: seq<byte>, n: int, books: seq<Book>)
    requires n >= 1 && books != []
    requires ParseForkRecord(data) == Some((books[0], rest))
    requires ParseBooks(rest, n - 1) == Some(books[1..])
    ensures ParseBooks(data, n) == Some(books)
  {
    assert [books[0]] + books[1..] == books;
  }

  /** Books of files decode back to the files. */
  lemma {:induction false} DecodeBooksOf(tree: Arena, table: seq<Entry>, files: seq<File>)
    requires Valid(tree) && DecodesAll(tree, table)
    requires forall k :: 0 <= k < |files| ==> |files[k].content| < Int32Limit
    requires forall k :: 0 <= k < |files| ==> InTable(table, files[k].content)
    ensures DecodeBooks(tree, BooksOf(table, files)) == Some(files)
  {
    if files != [] {
      var books := BooksOf(table, files);
      FileRoundTrip(tree, table, files[0].content);
      BooksOfCons(table, files);
      DecodeBooksOf(tree, table, files[1..]);
      DecodeBooksCons(tree, books, files);
    }
  }

  /** Decoding books: the first one's payload, then the rest's. */
  lemma {:induction false} DecodeBooksCons(tree: Arena, books: seq<Book>, files: seq<File>)
    requires Valid(tree) && books != [] && files != []
    requires books[0].title == files[0].name
    requires ForkRun(tree, 0, Unpack(books[0].compressedData), Int32Of(books[0].totalCharacters)) == Some(files[0].content)
    requires DecodeBooks(tree, books[1..]) == Some(files[1..])
    ensures DecodeBooks(tree, books) == Some(files)
  {
    assert [File(files[0].name, files[0].content)] + files[1..] == files;
  }

  /**
   * The round trip: the archive the compressor writes for files decompresses,
   * with the tree the decompressor rebuilds from it, to the same files.
   */
  lemma ForkRoundTrip(files: seq<File>, ht: HTree, tree: Arena)
    requires ForkReady(files, ht)
    requires Valid(tree) && RebuiltFrom(tree, ForkArchive(files, ht))
    ensures ForkDecoded(tree, ForkArchive(files, ht)) == Some(files)
  {
    ForkHeaderOf(files, ht, tree);
    RecordsRoundTrip(files, ht, tree);
  }

  /** The header of the archive reads back as written, and the rebuilt tree decodes its table. */
  lemma ForkHeaderOf(files: seq<File>, ht: HTree, tree: Arena)
    requires ForkReady(files, ht)
    requires Valid(tree) && RebuiltFrom(tree, ForkArchive(files, ht))
    ensures ParseHeader(ForkArchive(files, ht))
         == Some((Header(|files|, |AllBytes(files)|, TreeTable(ht)), ForkRecords(TreeTable(ht), files)))
    ensures ForkShiftsDefined(ForkEntries(TreeTable(ht)))
    ensures DecodesAll(tree, TreeTable(ht))
  {
    ShiftsDefinedOf(ht);
    var table := TreeTable(ht);
    TableFacts(ht);
    TreeTableProperties(ht);
    Limits();
    ParseHeaderBytes(|files|, |AllBytes(files)|, table, ForkRecords(table, files));
  }

  /** The records of files read back as books that decode to files. */
  lemma RecordsRoundTrip(files: seq<File>, ht: HTree, tree: Arena)
    requires ForkReady(files, ht)
    requires Valid(tree) && DecodesAll(tree, TreeTable(ht))
    ensures ParseBooks(ForkRecords(TreeTable(ht), files), |files|) == Some(BooksOf(TreeTable(ht), files))
    ensures DecodeBooks(tree, BooksOf(TreeTable(ht), files)) == Some(files)
  {
    var table := TreeTable(ht);
    TreeTableProperties(ht);
    Limits();
    forall k | 0 <= k < |files| ensures |Payload(table, files[k].content)| < Pow256(8) {
      PayloadShort(table, files[k].content);
    }
    ParseBooksRecords(table, files);
    forall k | 0 <= k < |files| ensures InTable(table, files[k].content) {
      CoveredInTable(table, LeafSyms(ht), files[k].content);
    }
    DecodeBooksOf(tree, table, files);
  }

  /**
   * What Compress promises of its tree meets the round trip's needs as soon
   * as the directory holds two distinct bytes and its files fit the fields.
   */
  lemma CompressedReady(files: seq<File>, ht: HTree)
    requires LeafSyms(ht) == Elements(AllBytes(files)) && LeafCount(ht) <= 256 && Height(ht) <= 31
    requires exists i, j :: 0 <= i < j < |AllBytes(files)| && AllBytes(files)[i] != AllBytes(files)[j]
    requires |files| < Int32Limit && |AllBytes(files)| < Int64Limit
    requires forall k :: 0 <= k < |files| ==> |files[k].name| <= 255 && |files[k].content| < Int32Limit
    ensures ForkReady(files, ht)
  {
    var i, j :| 0 <= i < j < |AllBytes(files)| && AllBytes(files)[i] != AllBytes(files)[j];
    assert AllBytes(files)[i] in LeafSyms(ht) && AllBytes(files)[j] in LeafSyms(ht);
    forall k | 0 <= k < |files| ensures Elements(files[k].content) <= LeafSyms(ht) {
      AllBytesElements(files, k);
    }
  }
}
