/**
 * The archive layout the three variants share: fixed-width little-endian
 * integer fields, the header (file count, total characters, table size and
 * the (symbol, bits, nBits) triples), and the two per-file record layouts.
 */
module Format {
  import opened Wrappers
  import opened Bits
  import opened Huffman
  import opened CodeTable
  import opened DecodeTree
  import opened Frequencies

  /** One file of the compressed directory: its name and its bytes. */
  datatype File = File(name: seq<byte>, content: seq<byte>)

  /** The bytes of all the files, in order. */
  function AllBytes(files: seq<File>): seq<byte>
  {
    if files == [] then [] else AllBytes(files[..|files| - 1]) + files[|files| - 1].content
  }

  lemma AllBytesSnoc(files: seq<File>, f: File)
    ensures AllBytes(files + [f]) == AllBytes(files) + f.content
  {
    assert (files + [f])[..|files|] == files;
  }

  /** Every byte of one file is among the bytes of all of them. */
  lemma {:induction false} AllBytesElements(files: seq<File>, k: nat)
    requires k < |files|
    ensures Elements(files[k].content) <= Elements(AllBytes(files))
  {
    var last := |files| - 1;
    AllBytesSnoc(files[..last], files[last]);
    assert files[..last] + [files[last]] == files;
    var all := AllBytes(files);
    if k == last {
      forall x | x in Elements(files[k].content) ensures x in Elements(all) {
        var i :| 0 <= i < |files[k].content| && files[k].content[i] == x;
        assert all[|AllBytes(files[..last])| + i] == x;
      }
    } else {
      AllBytesElements(files[..last], k);
      forall x | x in Elements(files[k].content) ensures x in Elements(all) {
        assert x in Elements(AllBytes(files[..last]));
        var i :| 0 <= i < |AllBytes(files[..last])| && AllBytes(files[..last])[i] == x;
        assert all[i] == x;
      }
    }
  }

  lemma {:induction false} AllBytesCons(files: seq<File>)
    requires files != []
    ensures AllBytes(files) == files[0].content + AllBytes(files[1..])
    decreases |files|
  {
    var last := |files| - 1;
    if last > 0 {
      var init, rest := files[..last], files[1..];
      calc {
        AllBytes(files);
        AllBytes(init) + files[last].content;
        { AllBytesCons(init); }
        init[0].content + AllBytes(init[1..]) + files[last].content;
        { assert init[0] == files[0] && init[1..] == rest[..last - 1] && rest[last - 1] == files[last]; }
        files[0].content + (AllBytes(rest[..|rest| - 1]) + rest[|rest| - 1].content);
        files[0].content + AllBytes(rest);
      }
    } else {
      assert files[1..] == [];
      assert files[..0] == [];
    }
  }

  function Pow256(n: nat): (r: nat)
    ensures r >= 1
  {
    if n == 0 then 1 else 256 * Pow256(n - 1)
  }

  // ---------------------------------------------------------------------------
  // Fixed-width fields

  /**
   * The n bytes an `fwrite` of an n-byte integer holding v produces,
   * least significant first; bits above the field's width are dropped.
   */
  function LE(v: nat, n: nat): (bs: seq<byte>)
    ensures |bs| == n
  {
    if n == 0 then [] else [v % 256] + LE(v / 256, n - 1)
  }

  /** The unsigned value of a little-endian field. */
  function FromLE(bs: seq<byte>): (v: nat)
    ensures v < Pow256(|bs|)
  {
    if bs == [] then 0 else bs[0] + 256 * FromLE(bs[1..])
  }

  /** The value of a little-endian field read into a signed C integer of its width. */
  function Signed(bs: seq<byte>): (v: int)
    ensures v < Pow256(|bs|)
  {
    if |bs| > 0 && bs[|bs| - 1] >= 128 then FromLE(bs) - Pow256(|bs|) else FromLE(bs)
  }

  /** The top byte of a 4-byte little-endian field weighs 2^24. */
  lemma FromLETop4(bs: seq<byte>)
    requires |bs| == 4
    ensures FromLE(bs) >= 16777216 * (bs[3] as int)
  {
    assert FromLE(bs[3..]) == bs[3] + 256 * FromLE(bs[4..]);
    assert FromLE(bs[2..]) == bs[2] + 256 * FromLE(bs[2..][1..]) && bs[2..][1..] == bs[3..];
    assert FromLE(bs[1..]) == bs[1] + 256 * FromLE(bs[1..][1..]) && bs[1..][1..] == bs[2..];
  }

  /** A value that fits its field is read back unchanged. */
  lemma {:induction false} FromLEofLE(v: nat, n: nat)
    requires v < Pow256(n)
    ensures FromLE(LE(v, n)) == v
  {
    if n > 0 {
      assert v / 256 < Pow256(n - 1);
      FromLEofLE(v / 256, n - 1);
      assert LE(v, n)[1..] == LE(v / 256, n - 1);
    }
  }

  /** A value below half the field's range has a clear top bit, so a signed read sees it unchanged. */
  lemma {:induction false} SignedLE(v: nat, n: nat)
    requires n >= 1 && v < 128 * Pow256(n - 1)
    ensures Signed(LE(v, n)) == v
  {
    TopByte(v, n);
    FromLEofLE(v, n);
  }

  lemma {:induction false} TopByte(v: nat, n: nat)
    requires n >= 1 && v < 128 * Pow256(n - 1)
    ensures LE(v, n)[n - 1] < 128
  {
    if n > 1 {
      assert v / 256 < 128 * Pow256(n - 2);
      TopByte(v / 256, n - 1);
      assert LE(v, n)[n - 1] == LE(v / 256, n - 1)[n - 2];
    }
  }

  /** 2^31, the first value a C `int` cannot hold. */
  const Int32Limit: nat := 0x8000_0000
  /** 2^63, the first value a C `long` cannot hold. */
  const Int64Limit: nat := 0x8000_0000_0000_0000

  lemma Limits()
    ensures Int32Limit == 128 * Pow256(3) && 2 * Int32Limit == Pow256(4)
    ensures Int64Limit == 128 * Pow256(7) && 2 * Int64Limit == Pow256(8)
  {
  }

  // ---------------------------------------------------------------------------
  // The header

  /** One triple: the symbol byte, the 8-byte code value and the code length byte. */
  function TripleBytes(e: Entry): (bs: seq<byte>)
    ensures |bs| == 10
  {
    [e.symbol] + LE(e.bits, 8) + [e.nBits % 256]
  }

  function TableBytes(table: seq<Entry>): (bs: seq<byte>)
    ensures |bs| == 10 * |table|
  {
    if table == [] then [] else TripleBytes(table[0]) + TableBytes(table[1..])
  }

  /** The header: file count (4 bytes), total characters (8), table size (4), then the triples. */
  function HeaderBytes(fileCount: nat, total: nat, table: seq<Entry>): seq<byte>
  {
    LE(fileCount, 4) + LE(total, 8) + LE(|table|, 4) + TableBytes(table)
  }

  /** The header fields as a reader sees them; each triple's nBits is the raw byte. */
  datatype Header = Header(fileCount: int, totalCharacters: int, entries: seq<Entry>)

  /** `n` triples read from the front of data; None when data ends first. A count n <= 0 reads none. */
  function ParseTable(data: seq<byte>, n: int): (r: Option<(seq<Entry>, seq<byte>)>)
    ensures r.Some? ==> |r.value.1| <= |data| && forall j :: 0 <= j < |r.value.0| ==> r.value.0[j].nBits < 256
    ensures r.Some? ==> r.value.1 == data[|data| - |r.value.1|..]
    decreases if n < 0 then 0 else n
  {
    if n <= 0 then Some(([], data))
    else if |data| < 10 then None
    else
      match ParseTable(data[10..], n - 1)
      case None => None
      case Some((es, rest)) => Some(([Entry(data[0], data[9], FromLE(data[1..9]))] + es, rest))
  }

  /**
   * The reads every decompressor starts with: the file count and the table
   * size as `int`, the total as a 64-bit signed integer, then the triples.
   */
  function ParseHeader(data: seq<byte>): (r: Option<(Header, seq<byte>)>)
    ensures r.Some? ==> |r.value.1| <= |data| && r.value.1 == data[|data| - |r.value.1|..]
  {
    if |data| < 16 then None
    else
      match ParseTable(data[16..], Signed(data[12..16]))
      case None => None
      case Some((es, rest)) => Some((Header(Signed(data[..4]), Signed(data[4..12]), es), rest))
  }

  /** What the header parse needs of a table to read it back unchanged. */
  predicate FitsTriples(table: seq<Entry>)
  {
    forall j :: 0 <= j < |table| ==> table[j].bits < Pow256(8) && table[j].nBits < 256
  }

  lemma {:induction false} ParseTableBytes(table: seq<Entry>, rest: seq<byte>)
    requires FitsTriples(table)
    ensures ParseTable(TableBytes(table) + rest, |table|) == Some((table, rest))
  {
    var data := TableBytes(table) + rest;
    if table == [] {
      assert data == rest;
    } else {
      var e := table[0];
      var tail := TableBytes(table[1..]) + rest;
      assert data == TripleBytes(e) + tail;
      assert data[10..] == tail;
      assert data[0] == e.symbol && data[9] == e.nBits && data[1..9] == LE(e.bits, 8);
      FromLEofLE(e.bits, 8);
      ParseTableBytes(table[1..], rest);
      assert ParseTable(tail, |table| - 1) == Some((table[1..], rest));
      assert Entry(data[0], data[9], FromLE(data[1..9])) == e;
      assert [e] + table[1..] == table;
    }
  }

  /** Reading a header back gives the values written and leaves what follows. */
  lemma ParseHeaderBytes(fileCount: nat, total: nat, table: seq<Entry>, rest: seq<byte>)
    requires fileCount < Int32Limit && total < Int64Limit && |table| < Int32Limit && FitsTriples(table)
    ensures ParseHeader(HeaderBytes(fileCount, total, table) + rest) == Some((Header(fileCount, total, table), rest))
  {
    var data := HeaderBytes(fileCount, total, table) + rest;
    Limits();
    assert data[..4] == LE(fileCount, 4);
    assert data[4..12] == LE(total, 8);
    assert data[12..16] == LE(|table|, 4);
    assert data[16..] == TableBytes(table) + rest;
    SignedLE(fileCount, 4);
    SignedLE(total, 8);
    SignedLE(|table|, 4);
    ParseTableBytes(table, rest);
  }

  /**
   * Fork compress.c:377-395 and Serial compress.c:281-298: the file count
   * and the total, then the entries counted by walking the table list, then
   * one triple per entry in list order.
   */
  method WriteHeader(fileCount: nat, total: nat, table: seq<Entry>) returns (out: seq<byte>)
    ensures out == HeaderBytes(fileCount, total, table)
  {
    out := LE(fileCount, 4) + LE(total, 8);
    var countElements := 0;
    var t := 0;
    while t < |table|
      invariant t <= |table| && countElements == t
    {
      countElements := countElements + 1;
      t := t + 1;
    }
    out := out + LE(countElements, 4);
    ghost var start := out;
    t := 0;
    while t < |table|
      invariant t <= |table|
      invariant out == start + TablePrefix(table, t)
    {
      out := out + TripleBytes(table[t]);
      t := t + 1;
    }
    TablePrefixAll(table);
  }

  /** The triples of the first k entries. */
  function TablePrefix(table: seq<Entry>, k: nat): seq<byte>
    requires k <= |table|
  {
    if k == 0 then [] else TablePrefix(table, k - 1) + TripleBytes(table[k - 1])
  }

  lemma {:induction false} TablePrefixSplit(table: seq<Entry>, k: nat)
    requires k <= |table|
    ensures TableBytes(table) == TablePrefix(table, k) + TableBytes(table[k..])
  {
    if k > 0 {
      TablePrefixSplit(table, k - 1);
      assert table[k - 1..] == [table[k - 1]] + table[k..];
      assert TableBytes(table[k - 1..]) == TripleBytes(table[k - 1]) + TableBytes(table[k..]);
    } else {
      assert table[0..] == table;
    }
  }

  lemma TablePrefixAll(table: seq<Entry>)
    ensures TablePrefix(table, |table|) == TableBytes(table)
  {
    TablePrefixSplit(table, |table|);
    assert table[|table|..] == [];
  }

  // ---------------------------------------------------------------------------
  // Payloads

  /** A file's payload: the codes of its bytes, packed eight to a byte, the last byte padded with zeros. */
  function Payload(table: seq<Entry>, data: seq<byte>): seq<byte>
  {
    Pack(Encode(TableCodes(table), data))
  }

  /** The bits of a payload and what follows it: the code of data, the padding of its last byte, then tail. */
  lemma PayloadBits(table: seq<Entry>, data: seq<byte>, tail: seq<byte>)
    ensures var e := Encode(TableCodes(table), data);
      && |Payload(table, data)| == CeilDiv8(|e|)
      && Unpack(Payload(table, data) + tail) == e + (Zeros(8 * CeilDiv8(|e|) - |e|) + Unpack(tail))
  {
    var e := Encode(TableCodes(table), data);
    UnpackAppend(Payload(table, data), tail);
    UnpackPack(e);
    PackLength(e);
  }

  /** With a tree that decodes every triple, the code of each byte of data decodes to it. */
  lemma DecodesEachByte(tree: Arena, table: seq<Entry>, data: seq<byte>)
    requires Valid(tree) && DecodesAll(tree, table) && InTable(table, data)
    ensures forall i :: 0 <= i < |data| ==> Decodes(tree, TableCodes(table)[data[i]], data[i])
  {
    forall i | 0 <= i < |data| ensures Decodes(tree, TableCodes(table)[data[i]], data[i]) {
      DecodesTableCode(tree, table, data[i]);
    }
  }

  lemma PayloadShort(table: seq<Entry>, data: seq<byte>)
    requires forall c: byte :: |TableCodes(table)[c]| <= 31
    ensures |Payload(table, data)| <= 31 * |data|
  {
    EncodeBound(TableCodes(table), data, 31);
    PackLength(Encode(TableCodes(table), data));
  }

  lemma {:induction false} TableCodeShort(table: seq<Entry>, c: byte, m: nat)
    requires forall j :: 0 <= j < |table| ==> table[j].nBits <= m
    ensures |TableCode(table, c)| <= m
  {
    if table != [] && table[0].symbol != c {
      TableCodeShort(table[1..], c, m);
    }
  }

  /** 2^31 is the first code value an `int` cannot hold. */
  lemma Pow2Of31()
    ensures Pow2(31) == Int32Limit
  {
    assert Pow2(8) == 256 && Pow2(7) == 128;
    Pow2Add(8, 8);
    Pow2Add(16, 8);
    Pow2Add(24, 7);
  }

  /**
   * The table of a tree of height 31 or less: every code fits the triple,
   * the codes are prefix-free and non-empty, and none is longer than 31
   * bits.
   */
  lemma TreeTableFacts(ht: HTree)
    requires ht.Node? && Height(ht) <= 31
    ensures FitsTriples(TreeTable(ht))
    ensures PrefixFree(Codes(TreeTable(ht)))
    ensures forall j :: 0 <= j < |TreeTable(ht)| ==> 1 <= TreeTable(ht)[j].nBits <= 31
    ensures forall c: byte :: |TableCodes(TreeTable(ht))[c]| <= 31
  {
    var table := TreeTable(ht);
    TreeTableProperties(ht);
    TreeTableFits(ht);
    ReadOffPrefixFree(ht, table);
    Limits();
    Pow2Of31();
    forall j | 0 <= j < |table| ensures table[j].nBits <= 31 && table[j].bits < Pow256(8) {
      LeafPathHeight(ht, EntryCode(table[j]), table[j].symbol);
      Pow2Mono(table[j].nBits, 31);
    }
    forall c: byte ensures |TableCodes(table)[c]| <= 31 {
      TableCodeShort(table, c, 31);
    }
  }

  /** Every byte of data has an entry in the table. */
  predicate InTable(table: seq<Entry>, data: seq<byte>)
  {
    forall i :: 0 <= i < |data| ==> HasEntry(table, data[i])
  }

  /** Data whose bytes are all among syms, each of which has an entry, has every byte in the table. */
  lemma CoveredInTable(table: seq<Entry>, syms: set<byte>, data: seq<byte>)
    requires forall s :: s in syms ==> HasEntry(table, s)
    requires Elements(data) <= syms
    ensures InTable(table, data)
  {
    forall i | 0 <= i < |data| ensures data[i] in syms {
      assert data[i] in Elements(data);
    }
  }

  function ThenFiles(fs: seq<File>, r: Option<seq<File>>): Option<seq<File>>
  {
    match r
    case None => None
    case Some(x) => Some(fs + x)
  }

  lemma ThenFilesCons(files: seq<File>)
    requires files != []
    ensures ThenFiles([files[0]], Some(files[1..])) == Some(files)
  {
    assert [files[0]] + files[1..] == files;
  }

  // ---------------------------------------------------------------------------
  // Records

  /**
   * A record of the Fork variant (compress.c:146-205): name length (4
   * bytes), the name, the character count (8), the payload length (8),
   * then the payload.
   */
  function ForkRecordBytes(name: seq<byte>, count: nat, payload: seq<byte>): seq<byte>
  {
    LE(|name|, 4) + name + LE(count, 8) + LE(|payload|, 8) + payload
  }

  /**
   * A record of the Serial (compress.c:228-232) and Hilos (compress.c:224-229)
   * variants: name length (4), the name, the character count (4), then the
   * payload, whose length is not stored.
   */
  function CountedRecordBytes(name: seq<byte>, count: nat, payload: seq<byte>): seq<byte>
  {
    LE(|name|, 4) + name + LE(count, 4) + payload
  }

  /** The Serial and Hilos records of files, the i-th carrying counts[i] as its character count. */
  function CountedRecords(table: seq<Entry>, files: seq<File>, counts: seq<nat>): seq<byte>
    requires |counts| == |files|
  {
    if files == [] then []
    else CountedRecordBytes(files[0].name, counts[0], Payload(table, files[0].content))
         + CountedRecords(table, files[1..], counts[1..])
  }

  lemma {:induction false} CountedRecordsSnoc(table: seq<Entry>, files: seq<File>, counts: seq<nat>, f: File, n: nat)
    requires |counts| == |files|
    ensures CountedRecords(table, files + [f], counts + [n])
         == CountedRecords(table, files, counts) + CountedRecordBytes(f.name, n, Payload(table, f.content))
  {
    if files == [] {
      assert [f][1..] == [] && [n][1..] == [];
    } else {
      assert (files + [f])[1..] == files[1..] + [f];
      assert (counts + [n])[1..] == counts[1..] + [n];
      CountedRecordsSnoc(table, files[1..], counts[1..], f, n);
    }
  }

  /** The records of files, each counting its whole content, are the first file's record and then the rest's. */
  lemma CountedRecordsCons(table: seq<Entry>, files: seq<File>, extra: seq<byte>)
    requires files != []
    ensures CountedRecords(table, files, Lengths(files)) + extra
         == CountedRecordBytes(files[0].name, |files[0].content|, Payload(table, files[0].content))
            + (CountedRecords(table, files[1..], Lengths(files[1..])) + extra)
  {
    assert Lengths(files)[1..] == Lengths(files[1..]);
  }

  /** The length of every file's content, in order. */
  function Lengths(files: seq<File>): (r: seq<nat>)
    ensures |r| == |files| && forall k :: 0 <= k < |files| ==> r[k] == |files[k].content|
  {
    seq(|files|, k requires 0 <= k < |files| => |files[k].content|)
  }

  lemma LengthsSnoc(files: seq<File>, f: File)
    ensures Lengths(files + [f]) == Lengths(files) + [|f.content|]
  {
    assert Lengths(files + [f]) == Lengths(files) + [|f.content|];
  }

  /** A Fork record as its reader stores it. */
  datatype Book = Book(title: seq<byte>, totalCharacters: nat, compressedData: seq<byte>)

  /**
   * Fork decompress.c:129-141: an unsigned name length, the name into the
   * 256-byte `title` with its terminator (so at most 255 bytes), the two
   * 8-byte counts, then compressedSize payload bytes. None when the data
   * ends first or the name would overflow `title`.
   */
  function ParseForkRecord(data: seq<byte>): (r: Option<(Book, seq<byte>)>)
    ensures r.Some? ==> |r.value.1| < |data|
  {
    if |data| < 4 then None
    else
      var n := FromLE(data[..4]);
      if n > 255 || |data| < 4 + n + 16 then None
      else
        var size := FromLE(data[4 + n + 8..4 + n + 16]);
        if |data| < 4 + n + 16 + size then None
        else Some((Book(data[4..4 + n], FromLE(data[4 + n..4 + n + 8]), data[4 + n + 16..4 + n + 16 + size]),
                   data[4 + n + 16 + size..]))
  }

  lemma ParseForkRecordBytes(name: seq<byte>, count: nat, payload: seq<byte>, rest: seq<byte>)
    requires |name| <= 255 && count < Pow256(8) && |payload| < Pow256(8)
    ensures ParseForkRecord(ForkRecordBytes(name, count, payload) + rest) == Some((Book(name, count, payload), rest))
  {
    var data := ForkRecordBytes(name, count, payload) + rest;
    var n := |name|;
    assert n < Pow256(4);
    assert data[..4] == LE(n, 4);
    FromLEofLE(n, 4);
    assert data[4..4 + n] == name;
    assert data[4 + n..4 + n + 8] == LE(count, 8);
    assert data[4 + n + 8..4 + n + 16] == LE(|payload|, 8);
    FromLEofLE(count, 8);
    FromLEofLE(|payload|, 8);
    assert data[4 + n + 16..4 + n + 16 + |payload|] == payload;
    assert data[4 + n + 16 + |payload|..] == rest;
  }

  /**
   * The fields in front of a Serial or Hilos payload: the name length, the
   * name and the 4-byte character count; None when the data ends first or
   * the name is not below `limit` bytes.
   */
  function ParseCountedHead(data: seq<byte>, limit: nat): (r: Option<(seq<byte>, nat, seq<byte>)>)
    ensures r.Some? ==> |r.value.2| + 8 <= |data| && r.value.1 < Pow256(4)
    ensures r.Some? ==> r.value.2 == data[|data| - |r.value.2|..] && |data| - |r.value.2| == 8 + |r.value.0|
    ensures r.Some? ==> |r.value.0| < limit
  {
    if |data| < 4 then None
    else
      var n := FromLE(data[..4]);
      if n >= limit || |data| < 4 + n + 4 then None
      else Some((data[4..4 + n], FromLE(data[4 + n..4 + n + 4]), data[4 + n + 4..]))
  }

  lemma ParseCountedHeadBytes(name: seq<byte>, count: nat, payload: seq<byte>, limit: nat)
    requires |name| < limit && |name| < Pow256(4) && count < Pow256(4)
    ensures ParseCountedHead(CountedRecordBytes(name, count, payload), limit) == Some((name, count, payload))
  {
    var data := CountedRecordBytes(name, count, payload);
    var n := |name|;
    assert data[..4] == LE(n, 4);
    FromLEofLE(n, 4);
    assert data[4..4 + n] == name;
    assert data[4 + n..4 + n + 4] == LE(count, 4);
    FromLEofLE(count, 4);
    assert data[4 + n + 4..] == payload;
  }
}
