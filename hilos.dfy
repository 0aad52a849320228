/**
 * The Hilos variant. Its compressor (Hilos/compress.c) counts every file
 * into a 256-slot array of its own, sums the arrays into a global one,
 * builds the tree from the counted bytes in ascending order, writes each
 * byte's code into the arrays `code_len` and `code_bits`, packs every file
 * into a buffer of its own and writes the header and one record per file.
 * Its decompressor (Hilos/decompress.c) rebuilds the tree from the header,
 * finds each record's segment by a decode that only counts, then decodes
 * every segment into its file. The threads of both, which work on disjoint
 * data, run here one after the other in file order.
 */
module Hilos {
  import opened Wrappers
  import opened Bits
  import opened Huffman
  import opened Frequencies
  import opened CodeTable
  import opened Buffers
  import opened DecodeTree
  import opened Decoding
  import opened Format

  // ---------------------------------------------------------------------------
  // Counting (compress.c:69-84, 163-172)

  /** How often each byte value occurs in data: the 256 counters `thread_count` fills. */
  function Histogram(data: seq<byte>): (h: seq<nat>)
    ensures |h| == 256 && forall c: byte :: h[c] == Occurrences(data, c)
  {
    seq(256, c requires 0 <= c < 256 => Occurrences(data, c))
  }

  /** The sum of the first k counters. */
  function CountSum(freq: seq<nat>, k: nat): nat
    requires k <= |freq|
  {
    if k == 0 then 0 else CountSum(freq, k - 1) + freq[k - 1]
  }

  lemma {:induction false} CountSumBump(freq: seq<nat>, x: nat, k: nat)
    requires x < |freq| && k <= |freq|
    ensures CountSum(freq[x := freq[x] + 1], k) == CountSum(freq, k) + (if x < k then 1 else 0)
  {
    if k > 0 {
      CountSumBump(freq, x, k - 1);
    }
  }

  lemma {:induction false} CountSumZero(freq: seq<nat>, k: nat)
    requires k <= |freq| && forall i :: 0 <= i < k ==> freq[i] == 0
    ensures CountSum(freq, k) == 0
  {
    if k > 0 {
      CountSumZero(freq, k - 1);
    }
  }

  /** One more byte read bumps its own counter and no other. */
  lemma HistogramSnoc(data: seq<byte>, x: byte)
    ensures Histogram(data + [x]) == Histogram(data)[x := Histogram(data)[x] + 1]
  {
    assert (data + [x])[..|data|] == data;
  }

  /** The counters of a file add up to its length: every byte read bumps exactly one of them. */
  lemma {:induction false} HistogramSum(data: seq<byte>)
    ensures CountSum(Histogram(data), 256) == |data|
  {
    if data != [] {
      var init, x := data[..|data| - 1], data[|data| - 1];
      assert data == init + [x];
      var h := Histogram(init);
      HistogramSum(init);
      HistogramSnoc(init, x);
      CountSumBump(h, x, 256);
      assert Histogram(data) == h[x := h[x] + 1];
    } else {
      CountSumZero(Histogram(data), 256);
    }
  }

  lemma {:induction false} OccurrencesAppend(a: seq<byte>, b: seq<byte>, c: byte)
    ensures Occurrences(a + b, c) == Occurrences(a, c) + Occurrences(b, c)
    decreases |b|
  {
    if b == [] {
      assert a + b == a;
    } else {
      var b' := b[..|b| - 1];
      assert (a + b)[..|a + b| - 1] == a + b';
      OccurrencesAppend(a, b', c);
    }
  }

  /** A byte is counted at least once exactly when it occurs. */
  lemma {:induction false} OccurrencesElements(data: seq<byte>, c: byte)
    ensures Occurrences(data, c) > 0 <==> c in Elements(data)
  {
    if data != [] {
      var init := data[..|data| - 1];
      OccurrencesElements(init, c);
      assert Elements(data) == Elements(init) + {data[|data| - 1]} by {
        forall y ensures y in Elements(data) <==> y in Elements(init) + {data[|data| - 1]} {
          if y in Elements(data) {
            var i :| 0 <= i < |data| && data[i] == y;
            if i < |data| - 1 {
              assert init[i] == y;
            }
          }
          if y in Elements(init) {
            var i :| 0 <= i < |init| && init[i] == y;
            assert data[i] == y;
          }
        }
      }
    }
  }

  /**
   * One element of the `files` array: the name, the byte count and the
   * counters `thread_count` fills, then the buffer `thread_compress` fills.
   * The file its path names is passed to each thread as its content.
   */
  class FileInfo {
    /** `nombre`; `nombre_len` is its length. */
    const nombre: seq<byte>
    /** `size`, an `unsigned int`. */
    var size: nat
    /** `local_freq`, the struct's own 256 counters. */
    const localFreq: array<nat>
    var compressedData: seq<byte>
    var compressedSize: nat

    /** The element as `calloc` leaves it, once the router has set its name. */
    constructor (nombre: seq<byte>)
      ensures this.nombre == nombre && size == 0 && compressedData == [] && compressedSize == 0
      ensures fresh(localFreq) && localFreq.Length == 256 && localFreq[..] == Histogram([])
    {
      this.nombre := nombre;
      size := 0;
      localFreq := new nat[256](_ => 0);
      compressedData := [];
      compressedSize := 0;
    }

    /** `thread_count`: each byte read adds one to `size`, which wraps at 2^32, and one to its counter. */
    method ThreadCount(data: seq<byte>)
      requires size == 0 && localFreq.Length == 256 && localFreq[..] == Histogram([])
      modifies this, localFreq
      ensures size == |data| % Wrap32 && localFreq[..] == Histogram(data)
      ensures compressedData == old(compressedData) && compressedSize == old(compressedSize)
    {
      var i := 0;
      while i < |data|
        invariant i <= |data| && size == i % Wrap32 && localFreq[..] == Histogram(data[..i])
        invariant compressedData == old(compressedData) && compressedSize == old(compressedSize)
      {
        var c := data[i];
        ghost var h := Histogram(data[..i]);
        TakeSnoc(data, i);
        HistogramSnoc(data[..i], c);
        SuccMod(i);
        size := (size + 1) % Wrap32;
        localFreq[c] := localFreq[c] + 1;
        assert localFreq[..] == h[c := h[c] + 1];
        i := i + 1;
      }
      assert data[..i] == data;
    }

    /**
     * `thread_compress`: each byte's code, the low code_len[c] bits of
     * code_bits[c] from the highest down, into a buffer of 1024 bytes that
     * doubles before a write that would not fit; then the last partial byte
     * shifted to the top. The arrays must hold no length above 32, which
     * would shift the `uint32_t` by its width or more.
     */
    method ThreadCompress(data: seq<byte>, codeLen: array<byte>, codeBits: array<nat>)
      requires codeLen.Length == 256 && codeBits.Length == 256 && CodesFit(codeLen[..])
      modifies this
      ensures compressedData == Pack(Encode(ArrayCodes(codeLen[..], codeBits[..]), data))
      ensures compressedSize == |compressedData| == CeilDiv8(CodeLenSum(codeLen[..], data))
      ensures size == old(size)
    {
      ghost var codes := ArrayCodes(codeLen[..], codeBits[..]);
      var buf := new DoublingBuffer<byte>(1024);
      var current: nat := 0;
      var bitcount: nat := 0;
      ghost var e: seq<bool> := [];
      AccumulatingStart();
      var i := 0;
      while i < |data|
        invariant i <= |data|
        invariant buf.Valid() && fresh(buf) && fresh(buf.data)
        invariant Accumulating(buf.Contents, current, bitcount, e) && e == Encode(codes, data[..i])
        invariant size == old(size)
      {
        var c := data[i];
        var len := codeLen[c];
        var bits := codeBits[c];
        assert data[..i + 1][..i] == data[..i];
        current, bitcount := EmitBits(buf, current, bitcount, len, bits, e);
        e := e + CodeBits(bits, len);
        i := i + 1;
      }
      assert data[..i] == data;
      FlushBits(buf, current, bitcount, e);
      compressedData := buf.data[..buf.size];
      compressedSize := buf.size;
      PackLength(e);
      EncodeLengthSum(codeLen[..], codeBits[..], data);
    }
  }

  /** `size++` on an `unsigned int`. */
  lemma SuccMod(n: nat)
    ensures (n % Wrap32 + 1) % Wrap32 == (n + 1) % Wrap32
  {
    var q, r := n / Wrap32, n % Wrap32;
    if r + 1 < Wrap32 {
      DivUnique(n + 1, Wrap32, q, r + 1);
      DivUnique(r + 1, Wrap32, 0, r + 1);
    } else {
      DivUnique(n + 1, Wrap32, q + 1, 0);
      DivUnique(r + 1, Wrap32, 1, 0);
    }
  }

  /** The codes the arrays hold: byte c's is the low code_len[c] bits of code_bits[c], highest first. */
  function ArrayCodes(lens: seq<byte>, bits: seq<nat>): (codes: seq<seq<bool>>)
    requires |lens| == 256 && |bits| == 256
    ensures |codes| == 256 && forall c: byte :: codes[c] == CodeBits(bits[c], lens[c])
  {
    seq(256, c requires 0 <= c < 256 => CodeBits(bits[c], lens[c]))
  }

  /** No code length above 32, the width of `code_bits`. */
  predicate CodesFit(lens: seq<byte>)
  {
    forall c :: 0 <= c < |lens| ==> lens[c] <= 32
  }

  /** The sum of code_len over the bytes of data. */
  function CodeLenSum(lens: seq<byte>, data: seq<byte>): nat
    requires |lens| == 256
  {
    if data == [] then 0 else CodeLenSum(lens, data[..|data| - 1]) + lens[data[|data| - 1]]
  }

  lemma {:induction false} EncodeLengthSum(lens: seq<byte>, bits: seq<nat>, data: seq<byte>)
    requires |lens| == 256 && |bits| == 256
    ensures |Encode(ArrayCodes(lens, bits), data)| == CodeLenSum(lens, data)
  {
    if data != [] {
      EncodeLengthSum(lens, bits, data[..|data| - 1]);
    }
  }

  /** compress.c:104-110: one bit shifted into `current`, which goes into the buffer once it holds eight. */
  method PushCodeBit(buf: DoublingBuffer<byte>, current: nat, bitcount: nat, bit: bool, ghost emitted: seq<bool>)
    returns (current': nat, bitcount': nat)
    requires buf.Valid() && Accumulating(buf.Contents, current, bitcount, emitted)
    modifies buf, buf.data
    ensures buf.Valid() && Accumulating(buf.Contents, current', bitcount', emitted + [bit])
    ensures buf.data == old(buf.data) || fresh(buf.data)
  {
    PushBit(buf.Contents, current, bitcount, emitted, bit);
    current' := 2 * current + (if bit then 1 else 0);
    bitcount' := bitcount + 1;
    if bitcount' == 8 {
      buf.Push(current');
      current' := 0;
      bitcount' := 0;
    }
  }

  /** compress.c:103-111: the bits of one code, `(bits >> i) & 1` for i from len - 1 down to 0. */
  method EmitBits(buf: DoublingBuffer<byte>, current: nat, bitcount: nat, len: nat, bits: nat, ghost e: seq<bool>)
    returns (current': nat, bitcount': nat)
    requires buf.Valid() && Accumulating(buf.Contents, current, bitcount, e)
    modifies buf, buf.data
    ensures buf.Valid() && Accumulating(buf.Contents, current', bitcount', e + CodeBits(bits, len))
    ensures buf.data == old(buf.data) || fresh(buf.data)
  {
    ghost var code := CodeBits(bits, len);
    ghost var emitted := e;
    current', bitcount' := current, bitcount;
    var i: int := len - 1;
    assert e + code[..0] == e;
    while i >= 0
      invariant -1 <= i < len
      invariant buf.Valid() && (buf.data == old(buf.data) || fresh(buf.data))
      invariant Accumulating(buf.Contents, current', bitcount', emitted)
      invariant emitted == e + code[..len - 1 - i]
    {
      ghost var j := len - 1 - i;
      CodeBitsAt(bits, len, j);
      var bit := BitAt(bits, i);
      current', bitcount' := PushCodeBit(buf, current', bitcount', bit, emitted);
      TakeSnoc(code, j);
      emitted := emitted + [bit];
      i := i - 1;
    }
    assert code[..len] == code;
  }

  /** compress.c:113-117: the last partial byte, shifted to the top and written. */
  method FlushBits(buf: DoublingBuffer<byte>, current: nat, bitcount: nat, ghost e: seq<bool>)
    requires buf.Valid() && Accumulating(buf.Contents, current, bitcount, e)
    modifies buf, buf.data
    ensures buf.Valid() && buf.Contents == Pack(e)
  {
    ghost var out := buf.Contents;
    Flush(out, current, bitcount, e);
    if bitcount > 0 {
      var last: byte := ShiftUp(current, bitcount);
      buf.Push(last);
      assert buf.Contents == out + [last];
    }
  }

  /** Each element holds its file's name, size as an `unsigned int` and counters. */
  ghost predicate HoldsCounts(infos: seq<FileInfo>, files: seq<File>)
    reads infos, set k | 0 <= k < |infos| :: infos[k].localFreq
  {
    && |infos| == |files|
    && forall k :: 0 <= k < |infos| ==>
         && infos[k].nombre == files[k].name && infos[k].size == |files[k].content| % Wrap32
         && infos[k].localFreq.Length == 256 && infos[k].localFreq[..] == Histogram(files[k].content)
  }

  /** No element appears twice. */
  ghost predicate Distinct(infos: seq<FileInfo>)
  {
    forall j, k :: 0 <= j < k < |infos| ==> infos[j] != infos[k]
  }

  /**
   * compress.c:147-168: an element per file holding its name (`calloc` and
   * the router), then `thread_count` on each.
   */
  method CountFiles(files: seq<File>) returns (infos: seq<FileInfo>)
    ensures HoldsCounts(infos, files) && Distinct(infos)
    ensures forall k :: 0 <= k < |infos| ==> fresh(infos[k]) && fresh(infos[k].localFreq)
  {
    infos := [];
    var i := 0;
    while i < |files|
      invariant i <= |files| && HoldsCounts(infos, files[..i]) && Distinct(infos)
      invariant forall k :: 0 <= k < |infos| ==> fresh(infos[k]) && fresh(infos[k].localFreq)
    {
      var fi := new FileInfo(files[i].name);
      fi.ThreadCount(files[i].content);
      infos := infos + [fi];
      i := i + 1;
    }
    assert files[..i] == files;
  }

  /** `total_original`: the sizes of the elements added up. */
  function Total(files: seq<File>): nat
  {
    if files == [] then 0 else Total(files[..|files| - 1]) + |files[|files| - 1].content| % Wrap32
  }

  /** The sizes the elements hold: each file's length as an `unsigned int`. */
  function Sizes(files: seq<File>): (r: seq<nat>)
    ensures |r| == |files| && forall k :: 0 <= k < |files| ==> r[k] == |files[k].content| % Wrap32
  {
    seq(|files|, k requires 0 <= k < |files| => |files[k].content| % Wrap32)
  }

  /**
   * compress.c:167-172, after each join: the element's size added to
   * `total_original` and each of its counters to the global one.
   */
  method Reduce(infos: seq<FileInfo>, ghost files: seq<File>, globalFreq: array<nat>) returns (totalOriginal: nat)
    requires HoldsCounts(infos, files)
    requires globalFreq.Length == 256 && globalFreq[..] == Histogram([])
    requires forall k :: 0 <= k < |infos| ==> infos[k].localFreq != globalFreq
    modifies globalFreq
    ensures globalFreq[..] == Histogram(AllBytes(files)) && totalOriginal == Total(files)
  {
    totalOriginal := 0;
    var i := 0;
    assert files[..0] == [];
    while i < |infos|
      invariant i <= |infos|
      invariant globalFreq[..] == Histogram(AllBytes(files[..i])) && totalOriginal == Total(files[..i])
    {
      var fi := infos[i];
      ghost var before := AllBytes(files[..i]);
      ghost var local := files[i].content;
      assert fi.localFreq[..] == Histogram(local);
      totalOriginal := totalOriginal + fi.size;
      var c := 0;
      while c < 256
        invariant c <= 256
        invariant forall d :: 0 <= d < c ==> globalFreq[d] == Occurrences(before, d) + Occurrences(local, d)
        invariant forall d :: c <= d < 256 ==> globalFreq[d] == Occurrences(before, d)
      {
        assert fi.localFreq[c] == Histogram(local)[c];
        globalFreq[c] := globalFreq[c] + fi.localFreq[c];
        c := c + 1;
      }
      assert files[..i + 1] == files[..i] + [files[i]];
      assert files[..i + 1][..i] == files[..i];
      AllBytesSnoc(files[..i], files[i]);
      forall d: byte ensures globalFreq[d] == Occurrences(AllBytes(files[..i + 1]), d) {
        OccurrencesAppend(before, local, d);
      }
      assert globalFreq[..] == Histogram(AllBytes(files[..i + 1]));
      i := i + 1;
    }
    assert files[..i] == files;
  }

  // ---------------------------------------------------------------------------
  // The tree (compress.c:174-197)

  /** compress.c:176-185 up to byte k: a leaf per byte with a nonzero count, in ascending order, each put in by weight. */
  function LeafList(freq: seq<nat>, k: nat): seq<HTree>
    requires |freq| == 256 && k <= 256
  {
    if k == 0 then []
    else if freq[k - 1] != 0 then InsertByWeight(LeafList(freq, k - 1), Leaf(k - 1, freq[k - 1]))
    else LeafList(freq, k - 1)
  }

  method BuildLeafList(globalFreq: array<nat>) returns (lista: seq<HTree>)
    requires globalFreq.Length == 256
    ensures lista == LeafList(globalFreq[..], 256)
  {
    lista := [];
    var c := 0;
    while c < 256
      invariant c <= 256 && lista == LeafList(globalFreq[..], c)
    {
      if globalFreq[c] != 0 {
        lista := InsertarOrdenado(lista, Leaf(c, globalFreq[c]));
      }
      c := c + 1;
    }
  }

  /**
   * Leaves sorted by weight, each weighing its byte's count, for bytes
   * below k; of two leaves of equal weight the larger byte comes first.
   */
  predicate LeafOrdered(list: seq<HTree>, freq: seq<nat>, k: nat)
    requires |freq| == 256
  {
    && SortedByWeight(list)
    && (forall i :: 0 <= i < |list| ==>
          list[i].Leaf? && list[i].sym < k && list[i].weight == freq[list[i].sym] && list[i].weight >= 1)
    && (forall i, j :: 0 <= i < j < |list| && list[i].weight == list[j].weight ==> list[i].sym > list[j].sym)
  }

  /** Putting the leaf of byte k in keeps a list ordered: it goes before every leaf at least as heavy. */
  lemma LeafOrderedInsert(list: seq<HTree>, freq: seq<nat>, k: nat)
    requires |freq| == 256 && k < 256 && freq[k] != 0 && LeafOrdered(list, freq, k)
    ensures LeafOrdered(InsertByWeight(list, Leaf(k, freq[k])), freq, k + 1)
  {
    var n := Leaf(k, freq[k]);
    var r := InsertByWeight(list, n);
    var p := InsertPos(list, n.weight);
    InsertByWeightSorted(list, n);
    forall i | 0 <= i < |r|
      ensures r[i].Leaf? && r[i].sym < k + 1 && r[i].weight == freq[r[i].sym] && r[i].weight >= 1
    {
      InsertByWeightIndex(list, n, i);
    }
    forall i, j | 0 <= i < j < |r| && r[i].weight == r[j].weight ensures r[i].sym > r[j].sym {
      InsertByWeightIndex(list, n, i);
      InsertByWeightIndex(list, n, j);
    }
  }

  /**
   * The leaf list is ordered: the bytes go in ascending, and each goes in
   * before every leaf at least as heavy, so before the smaller bytes of its
   * own weight.
   */
  lemma {:induction false} LeafListOrdered(freq: seq<nat>, k: nat)
    requires |freq| == 256 && k <= 256
    ensures LeafOrdered(LeafList(freq, k), freq, k)
  {
    if k > 0 {
      LeafListOrdered(freq, k - 1);
      if freq[k - 1] != 0 {
        LeafOrderedInsert(LeafList(freq, k - 1), freq, k - 1);
      }
    }
  }

  /** The leaf list weighs the sum of the counts and holds exactly the bytes counted. */
  lemma {:induction false} LeafListTotals(freq: seq<nat>, k: nat)
    requires |freq| == 256 && k <= 256
    ensures ListWeight(LeafList(freq, k)) == CountSum(freq, k)
    ensures forall c: byte :: c in ListSyms(LeafList(freq, k)) <==> c < k && freq[c] != 0
    ensures AllWellWeighted(LeafList(freq, k))
  {
    if k > 0 {
      LeafListTotals(freq, k - 1);
      if freq[k - 1] != 0 {
        var n := Leaf(k - 1, freq[k - 1]);
        InsertByWeightTotals(LeafList(freq, k - 1), n);
        InsertByWeightWellWeighted(LeafList(freq, k - 1), n);
      }
    }
  }

  /** The node the merge loop leaves: NULL when nothing was counted. */
  function Root(list: seq<HTree>): Option<HTree>
  {
    if list == [] then None else Some(list[0])
  }

  /** The tree compress.c builds for files: its histogram's leaf list, merged. */
  function HilosTree(files: seq<File>): Option<HTree>
  {
    Root(Merged(LeafList(Histogram(AllBytes(files)), 256)))
  }

  /**
   * The tree holds exactly the bytes read, and its root weighs as much as
   * their number: `total_original`, while no file reaches 2^32 bytes.
   */
  lemma HilosTreeProperties(files: seq<File>)
    ensures HilosTree(files).Some? <==> AllBytes(files) != []
    ensures HilosTree(files).Some? ==>
      && LeafSyms(HilosTree(files).value) == Elements(AllBytes(files))
      && WellWeighted(HilosTree(files).value) && HilosTree(files).value.weight == |AllBytes(files)|
  {
    var data := AllBytes(files);
    var freq := Histogram(data);
    var list := LeafList(freq, 256);
    LeafListTotals(freq, 256);
    LeafListOrdered(freq, 256);
    HistogramSum(data);
    MergedProperties(list);
    forall c: byte ensures c in ListSyms(list) <==> c in Elements(data) {
      OccurrencesElements(data, c);
    }
    if list != [] {
      ListSingleton(Merged(list)[0]);
      assert Merged(list) == [Merged(list)[0]];
      assert list[0].weight >= 1;
      assert ListWeight(list) >= 1;
    }
  }

  lemma {:induction false} TotalUnwrapped(files: seq<File>)
    requires forall k :: 0 <= k < |files| ==> |files[k].content| < Wrap32
    ensures Total(files) == |AllBytes(files)|
  {
    if files != [] {
      TotalUnwrapped(files[..|files| - 1]);
    }
  }

  // ---------------------------------------------------------------------------
  // The code arrays (compress.c:57-67)

  /**
   * The path whose code crearTablaCodificacion leaves for s: it visits the
   * left subtree before the right, so a leaf on the right overwrites one
   * on the left.
   */
  function PathOf(t: HTree, s: byte): seq<bool>
    requires s in LeafSyms(t)
  {
    if t.Leaf? then []
    else if s in LeafSyms(t.right) then [true] + PathOf(t.right, s)
    else [false] + PathOf(t.left, s)
  }

  lemma {:induction false} PathOfIsLeafPath(t: HTree, s: byte)
    requires s in LeafSyms(t)
    ensures IsLeafPath(t, PathOf(t, s), s)
  {
    if t.Node? {
      var b := s in LeafSyms(t.right);
      var sub := if b then t.right else t.left;
      PathOfIsLeafPath(sub, s);
      assert ([b] + PathOf(sub, s))[1..] == PathOf(sub, s);
    }
  }

  /** `bits_val << 1` and `(bits_val << 1) | 1` on a `uint32_t`: the new bit appended, modulo 2^32. */
  lemma ShiftMod(v: nat, b: bool)
    ensures (2 * (v % Wrap32)) % Wrap32 + (if b then 1 else 0) == (2 * v + (if b then 1 else 0)) % Wrap32
  {
    var q, r := v / Wrap32, v % Wrap32;
    var bit := if b then 1 else 0;
    assert 2 * v + bit == Wrap32 * (2 * q) + (2 * r + bit);
    if 2 * r < Wrap32 {
      DivUnique(2 * r, Wrap32, 0, 2 * r);
      DivUnique(2 * v + bit, Wrap32, 2 * q, 2 * r + bit);
    } else {
      assert 2 * v + bit == Wrap32 * (2 * q + 1) + (2 * r - Wrap32 + bit);
      DivUnique(2 * r, Wrap32, 1, 2 * r - Wrap32);
      DivUnique(2 * v + bit, Wrap32, 2 * q + 1, 2 * r - Wrap32 + bit);
    }
  }

  /**
   * The arrays once every leaf below t has been given the length and value
   * of its path, prefix followed by its steps from t, left subtree first.
   */
  function WriteCodes(lens: seq<byte>, bits: seq<nat>, t: HTree, prefix: seq<bool>): (r: (seq<byte>, seq<nat>))
    requires |lens| == 256 && |bits| == 256
    ensures |r.0| == 256 && |r.1| == 256
    decreases t
  {
    if t.Leaf? then (lens[t.sym := |prefix| % 256], bits[t.sym := ValueOf(prefix) % Wrap32])
    else
      var l := WriteCodes(lens, bits, t.left, prefix + [false]);
      WriteCodes(l.0, l.1, t.right, prefix + [true])
  }

  /**
   * Every leaf below t ends up with the length (modulo 256) and the value
   * (modulo 2^32) of its path, the right one where a byte has leaves on
   * both sides; the entries of other bytes are kept.
   */
  lemma {:induction false} WriteCodesSpec(lens: seq<byte>, bits: seq<nat>, t: HTree, prefix: seq<bool>, s: byte)
    requires |lens| == 256 && |bits| == 256
    ensures WriteCodes(lens, bits, t, prefix).0[s] ==
      (if s in LeafSyms(t) then (|prefix| + |PathOf(t, s)|) % 256 else lens[s])
    ensures WriteCodes(lens, bits, t, prefix).1[s] ==
      (if s in LeafSyms(t) then ValueOf(prefix + PathOf(t, s)) % Wrap32 else bits[s])
    decreases t
  {
    if t.Leaf? {
      assert prefix + [] == prefix;
    } else {
      var l := WriteCodes(lens, bits, t.left, prefix + [false]);
      WriteCodesSpec(lens, bits, t.left, prefix + [false], s);
      WriteCodesSpec(l.0, l.1, t.right, prefix + [true], s);
      if s in LeafSyms(t.right) {
        assert prefix + PathOf(t, s) == prefix + [true] + PathOf(t.right, s);
      } else if s in LeafSyms(t) {
        assert prefix + PathOf(t, s) == prefix + [false] + PathOf(t.left, s);
      }
    }
  }

  /**
   * `crearTablaCodificacion(raiz, bits_count, bits_val)`: a leaf takes
   * bits_count as its `uint8_t` length and bits_val as its `uint32_t`
   * value; a node passes `bits_val << 1` to its left subtree and
   * `(bits_val << 1) | 1` to its right, bits_count one higher.
   */
  method CrearTablaCodificacion(raiz: HTree, bitsCount: nat, bitsVal: nat, ghost prefix: seq<bool>,
                                codeLen: array<byte>, codeBits: array<nat>)
    requires codeLen.Length == 256 && codeBits.Length == 256
    requires bitsCount == |prefix| && bitsVal == ValueOf(prefix) % Wrap32
    modifies codeLen, codeBits
    ensures (codeLen[..], codeBits[..]) == WriteCodes(old(codeLen[..]), old(codeBits[..]), raiz, prefix)
    decreases raiz
  {
    if raiz.Leaf? {
      codeLen[raiz.sym] := bitsCount % 256;
      codeBits[raiz.sym] := bitsVal;
    } else {
      ShiftMod(ValueOf(prefix), false);
      ShiftMod(ValueOf(prefix), true);
      ValueOfSnoc(prefix, false);
      ValueOfSnoc(prefix, true);
      CrearTablaCodificacion(raiz.left, bitsCount + 1, (2 * bitsVal) % Wrap32, prefix + [false], codeLen, codeBits);
      CrearTablaCodificacion(raiz.right, bitsCount + 1, (2 * bitsVal) % Wrap32 + 1, prefix + [true], codeLen, codeBits);
    }
  }

  /** The `code_len` array crearTablaCodificacion leaves for root, from all zeros. */
  function TreeLens(root: Option<HTree>): (lens: seq<byte>)
    ensures |lens| == 256
  {
    seq(256, c requires 0 <= c < 256 =>
      if root.Some? && c in LeafSyms(root.value) then |PathOf(root.value, c)| % 256 else 0)
  }

  /** The `code_bits` array crearTablaCodificacion leaves for root, from all zeros. */
  function TreeBits(root: Option<HTree>): (bits: seq<nat>)
    ensures |bits| == 256
  {
    seq(256, c requires 0 <= c < 256 =>
      if root.Some? && c in LeafSyms(root.value) then ValueOf(PathOf(root.value, c)) % Wrap32 else 0)
  }

  /**
   * compress.c:198: the arrays filled from the list's only node, or left
   * zero when the list is NULL.
   */
  method FillCodes(lista: seq<HTree>, codeLen: array<byte>, codeBits: array<nat>)
    requires codeLen.Length == 256 && codeBits.Length == 256
    requires codeLen[..] == seq(256, _ => 0) && codeBits[..] == seq(256, _ => 0)
    modifies codeLen, codeBits
    ensures codeLen[..] == TreeLens(Root(lista)) && codeBits[..] == TreeBits(Root(lista))
  {
    if lista != [] {
      ghost var zl, zb := codeLen[..], codeBits[..];
      CrearTablaCodificacion(lista[0], 0, 0, [], codeLen, codeBits);
      forall s: byte ensures codeLen[s] == TreeLens(Root(lista))[s] && codeBits[s] == TreeBits(Root(lista))[s] {
        WriteCodesSpec(zl, zb, lista[0], [], s);
        if s in LeafSyms(lista[0]) {
          assert [] + PathOf(lista[0], s) == PathOf(lista[0], s);
        }
      }
    }
    assert codeLen[..] == TreeLens(Root(lista));
    assert codeBits[..] == TreeBits(Root(lista));
  }

  // ---------------------------------------------------------------------------
  // The header and the records (compress.c:210-229)

  /** The triples for the bytes below k: one per c with a nonzero code length, in ascending c. */
  function TriplesUpTo(lens: seq<byte>, bits: seq<nat>, k: nat): (es: seq<Entry>)
    requires |lens| == 256 && |bits| == 256 && k <= 256
  {
    if k == 0 then []
    else TriplesUpTo(lens, bits, k - 1) + (if lens[k - 1] != 0 then [Entry(k - 1, lens[k - 1], bits[k - 1])] else [])
  }

  /** The header's table: a triple for every byte with a nonzero code length. */
  function HilosTable(lens: seq<byte>, bits: seq<nat>): seq<Entry>
    requires |lens| == 256 && |bits| == 256
  {
    TriplesUpTo(lens, bits, 256)
  }

  lemma {:induction false} TableBytesSnoc(table: seq<Entry>, e: Entry)
    ensures TableBytes(table + [e]) == TableBytes(table) + TripleBytes(e)
  {
    if table == [] {
      assert [e][1..] == [];
    } else {
      assert (table + [e])[1..] == table[1..] + [e];
      TableBytesSnoc(table[1..], e);
    }
  }

  /** compress.c:212-214: the number of bytes with a nonzero code length. */
  method CountSymbols(codeLen: array<byte>, codeBits: array<nat>) returns (symbols: nat)
    requires codeLen.Length == 256 && codeBits.Length == 256
    ensures symbols == |HilosTable(codeLen[..], codeBits[..])|
  {
    ghost var lens, bits := codeLen[..], codeBits[..];
    symbols := 0;
    var c := 0;
    while c < 256
      invariant c <= 256 && symbols == |TriplesUpTo(lens, bits, c)|
    {
      if codeLen[c] != 0 {
        symbols := symbols + 1;
      }
      c := c + 1;
    }
  }

  /**
   * compress.c:216-223: the triple (byte, code value as an `unsigned long`,
   * length) of each byte with a nonzero code length, in ascending byte order.
   */
  method WriteTriples(codeLen: array<byte>, codeBits: array<nat>) returns (out: seq<byte>)
    requires codeLen.Length == 256 && codeBits.Length == 256
    ensures out == TableBytes(HilosTable(codeLen[..], codeBits[..]))
  {
    ghost var lens, bits := codeLen[..], codeBits[..];
    out := [];
    var c := 0;
    while c < 256
      invariant c <= 256 && out == TableBytes(TriplesUpTo(lens, bits, c))
    {
      if codeLen[c] != 0 {
        var e := Entry(c, codeLen[c], codeBits[c]);
        TableBytesSnoc(TriplesUpTo(lens, bits, c), e);
        assert TriplesUpTo(lens, bits, c + 1) == TriplesUpTo(lens, bits, c) + [e];
        assert TripleBytes(e) == [c] + LE(codeBits[c], 8) + [codeLen[c]];
        out := out + ([c] + LE(codeBits[c], 8) + [codeLen[c]]);
      } else {
        assert lens[c] == 0;
        assert TriplesUpTo(lens, bits, c + 1) == TriplesUpTo(lens, bits, c) + [];
        assert TriplesUpTo(lens, bits, c + 1) == TriplesUpTo(lens, bits, c);
      }
      c := c + 1;
    }
  }

  /**
   * compress.c:210-223: the file count, `total_original`, the number of
   * bytes with a nonzero code length, then their triples.
   */
  method WriteHilosHeader(fileCount: nat, totalOriginal: nat, codeLen: array<byte>, codeBits: array<nat>)
    returns (out: seq<byte>)
    requires codeLen.Length == 256 && codeBits.Length == 256
    ensures out == HeaderBytes(fileCount, totalOriginal, HilosTable(codeLen[..], codeBits[..]))
  {
    var symbols := CountSymbols(codeLen, codeBits);
    var triples := WriteTriples(codeLen, codeBits);
    out := LE(fileCount, 4) + LE(totalOriginal, 8) + LE(symbols, 4) + triples;
  }

  // ---------------------------------------------------------------------------
  // What the table holds

  lemma {:induction false} HasEntryAppend(a: seq<Entry>, b: seq<Entry>, c: byte)
    ensures HasEntry(a + b, c) <==> HasEntry(a, c) || HasEntry(b, c)
  {
    if HasEntry(a + b, c) {
      var i :| 0 <= i < |a + b| && (a + b)[i].symbol == c;
      if i < |a| {
        assert a[i].symbol == c;
      } else {
        assert b[i - |a|].symbol == c;
      }
    }
    if HasEntry(a, c) {
      var i :| 0 <= i < |a| && a[i].symbol == c;
      assert (a + b)[i].symbol == c;
    }
    if HasEntry(b, c) {
      var i :| 0 <= i < |b| && b[i].symbol == c;
      assert (a + b)[|a| + i].symbol == c;
    }
  }

  /** The first entry for c lies in a when a has one, and in b otherwise. */
  lemma {:induction false} TableCodeAppend(a: seq<Entry>, b: seq<Entry>, c: byte)
    ensures TableCode(a + b, c) == if HasEntry(a, c) then TableCode(a, c) else TableCode(b, c)
    decreases |a|
  {
    if a == [] {
      assert a + b == b;
    } else {
      assert (a + b)[1..] == a[1..] + b;
      if a[0].symbol != c {
        TableCodeAppend(a[1..], b, c);
        if HasEntry(a, c) {
          var i :| 0 <= i < |a| && a[i].symbol == c;
          assert a[1..][i - 1].symbol == c;
        }
        if HasEntry(a[1..], c) {
          var i :| 0 <= i < |a[1..]| && a[1..][i].symbol == c;
          assert a[i + 1].symbol == c;
        }
      } else {
        assert a[0].symbol == c;
      }
    }
  }

  lemma TableCodeSingle(e: Entry, c: byte)
    ensures TableCode([e], c) == if e.symbol == c then EntryCode(e) else []
    ensures HasEntry([e], c) <==> e.symbol == c
  {
    assert [e][1..] == [];
  }

  /** A byte below k has an entry exactly when its length is nonzero, and the entry's code is its array code. */
  lemma {:induction false} TriplesCodeAt(lens: seq<byte>, bits: seq<nat>, k: nat, c: byte)
    requires |lens| == 256 && |bits| == 256 && k <= 256
    ensures HasEntry(TriplesUpTo(lens, bits, k), c) <==> c < k && lens[c] != 0
    ensures TableCode(TriplesUpTo(lens, bits, k), c) == if c < k then CodeBits(bits[c], lens[c]) else []
  {
    if k > 0 {
      var a := TriplesUpTo(lens, bits, k - 1);
      var x := if lens[k - 1] != 0 then [Entry(k - 1, lens[k - 1], bits[k - 1])] else [];
      TriplesCodeAt(lens, bits, k - 1, c);
      HasEntryAppend(a, x, c);
      TableCodeAppend(a, x, c);
      if lens[k - 1] != 0 {
        TableCodeSingle(Entry(k - 1, lens[k - 1], bits[k - 1]), c);
      }
    }
  }

  /** The codes the encoder looks up in the header's table are the codes the arrays hold. */
  lemma HilosTableCodes(lens: seq<byte>, bits: seq<nat>)
    requires |lens| == 256 && |bits| == 256
    ensures TableCodes(HilosTable(lens, bits)) == ArrayCodes(lens, bits)
    ensures forall c: byte :: HasEntry(HilosTable(lens, bits), c) <==> lens[c] != 0
  {
    forall c: byte ensures TableCode(HilosTable(lens, bits), c) == CodeBits(bits[c], lens[c])
      && (HasEntry(HilosTable(lens, bits), c) <==> lens[c] != 0)
    {
      TriplesCodeAt(lens, bits, 256, c);
    }
  }

  /** The triples are in strictly ascending byte order, each the byte's own length and value. */
  lemma {:induction false} TriplesMembers(lens: seq<byte>, bits: seq<nat>, k: nat)
    requires |lens| == 256 && |bits| == 256 && k <= 256
    ensures |TriplesUpTo(lens, bits, k)| <= k
    ensures forall j :: 0 <= j < |TriplesUpTo(lens, bits, k)| ==>
      var e := TriplesUpTo(lens, bits, k)[j];
      e.symbol < k && lens[e.symbol] != 0 && e == Entry(e.symbol, lens[e.symbol], bits[e.symbol])
    ensures forall i, j :: 0 <= i < j < |TriplesUpTo(lens, bits, k)| ==>
      TriplesUpTo(lens, bits, k)[i].symbol < TriplesUpTo(lens, bits, k)[j].symbol
  {
    if k > 0 {
      TriplesMembers(lens, bits, k - 1);
    }
  }

  /**
   * decompress.c:49: `1UL << (nBits - 1)` is defined for lengths 1 to 64
   * (a length byte of 128 or more is negative in the signed `char`).
   */
  predicate HilosShiftsDefined(entries: seq<Entry>)
  {
    forall j :: 0 <= j < |entries| ==> 1 <= entries[j].nBits <= 64
  }

  /** The path to a leaf of a tree no taller than 32: 1 to 32 steps, whose value fits 32 bits. */
  lemma PathFits(ht: HTree, c: byte)
    requires ht.Node? && Height(ht) <= 32 && c in LeafSyms(ht)
    ensures var p := PathOf(ht, c);
      1 <= |p| <= 32 && ValueOf(p) < Wrap32 && CodeBits(ValueOf(p), |p|) == p
  {
    var p := PathOf(ht, c);
    PathOfIsLeafPath(ht, c);
    LeafPathHeight(ht, p, c);
    ValueOfBound(p);
    Pow2Mono(|p|, 32);
    Pow2Of32();
    CodeBitsOfValue(p);
  }

  lemma SmallMod(v: nat, d: nat)
    requires v < d
    ensures v % d == v
  {
    DivUnique(v, d, 0, v);
  }

  /** The code compress.c gives a leaf of a tree no taller than 32: its path itself, as length and value. */
  lemma LeafCodeFits(ht: HTree, c: byte)
    requires ht.Node? && Height(ht) <= 32 && c in LeafSyms(ht)
    ensures var p := PathOf(ht, c);
      && TreeLens(Some(ht))[c] == |p| && 1 <= |p| <= 32
      && TreeBits(Some(ht))[c] == ValueOf(p) < Wrap32
      && CodeBits(TreeBits(Some(ht))[c], TreeLens(Some(ht))[c]) == p
  {
    var p := PathOf(ht, c);
    PathFits(ht, c);
    SmallMod(|p|, 256);
    SmallMod(ValueOf(p), Wrap32);
    assert TreeLens(Some(ht))[c] == |p| % 256;
    assert TreeBits(Some(ht))[c] == ValueOf(p) % Wrap32;
  }

  lemma Pow2Of32()
    ensures Pow2(32) == Wrap32
  {
    Pow2Of31();
  }

  /** Each triple of a tree no taller than 32 carries the path to its byte's leaf, in fields it fits. */
  lemma HilosTableEntries(ht: HTree)
    requires ht.Node? && Height(ht) <= 32
    ensures var table := HilosTable(TreeLens(Some(ht)), TreeBits(Some(ht)));
      && ReadOff(ht, table) && FitsTriples(table) && HilosShiftsDefined(table) && |table| <= 256
      && forall i, j :: 0 <= i < j < |table| ==> table[i].symbol < table[j].symbol
  {
    var lens, bits := TreeLens(Some(ht)), TreeBits(Some(ht));
    var table := HilosTable(lens, bits);
    TriplesMembers(lens, bits, 256);
    Limits();
    forall j | 0 <= j < |table|
      ensures IsLeafPath(ht, EntryCode(table[j]), table[j].symbol)
      ensures table[j].bits < Pow256(8) && table[j].nBits < 256 && 1 <= table[j].nBits <= 64
    {
      var c := table[j].symbol;
      assert c in LeafSyms(ht);
      LeafCodeFits(ht, c);
      PathOfIsLeafPath(ht, c);
    }
  }

  /**
   * For a tree of two leaves or more and no taller than 32, the header's
   * table holds one triple per leaf byte, each code the path to that
   * byte's leaf: codes that are distinct, 1 to 32 bits long and fit the
   * triple's fields.
   */
  lemma HilosTableFacts(ht: HTree)
    requires ht.Node? && Height(ht) <= 32
    ensures var table := HilosTable(TreeLens(Some(ht)), TreeBits(Some(ht)));
      && ReadOff(ht, table) && DistinctCodes(table) && FitsTriples(table) && HilosShiftsDefined(table)
      && |table| <= 256 && (forall s :: s in LeafSyms(ht) ==> HasEntry(table, s))
      && CodesFit(TreeLens(Some(ht)))
  {
    var lens, bits := TreeLens(Some(ht)), TreeBits(Some(ht));
    var table := HilosTable(lens, bits);
    HilosTableEntries(ht);
    forall i, j | 0 <= i < |table| && 0 <= j < |table| && i != j ensures EntryCode(table[i]) != EntryCode(table[j]) {
      if i < j {
        assert table[i].symbol < table[j].symbol;
      } else {
        assert table[j].symbol < table[i].symbol;
      }
    }
    HilosLeafEntries(ht);
  }

  /** Every leaf byte has a code of 1 to 32 bits, so a triple; other bytes have length 0. */
  lemma HilosLeafEntries(ht: HTree)
    requires ht.Node? && Height(ht) <= 32
    ensures forall s :: s in LeafSyms(ht) ==> HasEntry(HilosTable(TreeLens(Some(ht)), TreeBits(Some(ht))), s)
    ensures CodesFit(TreeLens(Some(ht)))
  {
    var lens, bits := TreeLens(Some(ht)), TreeBits(Some(ht));
    HilosTableCodes(lens, bits);
    forall c: byte ensures lens[c] <= 32 && (c in LeafSyms(ht) ==> lens[c] != 0) {
      if c in LeafSyms(ht) {
        LeafCodeFits(ht, c);
      }
    }
  }

  // ---------------------------------------------------------------------------
  // The compressor (compress.c:124-229)

  /** compress.c:200-204: `thread_compress` on every element. */
  method CompressEntries(infos: seq<FileInfo>, files: seq<File>, codeLen: array<byte>, codeBits: array<nat>)
    requires HoldsCounts(infos, files) && Distinct(infos)
    requires codeLen.Length == 256 && codeBits.Length == 256 && CodesFit(codeLen[..])
    modifies set k | 0 <= k < |infos| :: infos[k]
    ensures HoldsCounts(infos, files)
    ensures forall k :: 0 <= k < |infos| ==>
      infos[k].compressedData == Payload(HilosTable(codeLen[..], codeBits[..]), files[k].content)
  {
    HilosTableCodes(codeLen[..], codeBits[..]);
    var i := 0;
    while i < |infos|
      invariant i <= |infos| && HoldsCounts(infos, files)
      invariant forall k :: 0 <= k < i ==>
        infos[k].compressedData == Payload(HilosTable(codeLen[..], codeBits[..]), files[k].content)
    {
      infos[i].ThreadCompress(files[i].content, codeLen, codeBits);
      i := i + 1;
    }
  }

  /** compress.c:224-229: per element, the name length, the name, the size and the packed bytes. */
  method WriteRecords(infos: seq<FileInfo>, ghost files: seq<File>, ghost table: seq<Entry>) returns (out: seq<byte>)
    requires HoldsCounts(infos, files)
    requires forall k :: 0 <= k < |infos| ==> infos[k].compressedData == Payload(table, files[k].content)
    ensures out == CountedRecords(table, files, Sizes(files))
  {
    out := [];
    var i := 0;
    assert files[..0] == [];
    while i < |infos|
      invariant i <= |infos| && out == CountedRecords(table, files[..i], Sizes(files[..i]))
    {
      var fi := infos[i];
      out := out + (LE(|fi.nombre|, 4) + fi.nombre + LE(fi.size, 4) + fi.compressedData);
      CountedRecordsSnoc(table, files[..i], Sizes(files[..i]), files[i], fi.size);
      assert files[..i + 1] == files[..i] + [files[i]];
      assert Sizes(files[..i + 1]) == Sizes(files[..i]) + [fi.size];
      i := i + 1;
    }
    assert files[..i] == files;
  }

  /**
   * The archive compress.c writes for files, with root the tree it built:
   * the header, then a record per file.
   */
  function HilosArchive(files: seq<File>, root: Option<HTree>): seq<byte>
  {
    var table := HilosTable(TreeLens(root), TreeBits(root));
    HeaderBytes(|files|, Total(files), table) + CountedRecords(table, files, Sizes(files))
  }

  /**
   * The whole compressor on the files of the directory, in the order
   * `readdir` lists them. An empty directory writes nothing
   * (compress.c:143-146); a code longer than 32 bits would shift the
   * `uint32_t` in `thread_compress` by its width or more, which C leaves
   * undefined: that is None here too.
   */
  method Compress(files: seq<File>) returns (archive: Option<seq<byte>>, root: Option<HTree>)
    ensures root == HilosTree(files)
    ensures archive.None? <==> files == [] || !CodesFit(TreeLens(root))
    ensures archive.Some? ==> archive.value == HilosArchive(files, root)
  {
    root := HilosTree(files);
    if |files| == 0 {
      archive := None;
      return;
    }
    var infos, totalOriginal, globalFreq := CountPhase(files);
    var codeLen, codeBits := BuildCodes(globalFreq);
    if !CodesFit(codeLen[..]) {
      archive := None;
      return;
    }
    var out := WriteArchive(infos, files, totalOriginal, codeLen, codeBits);
    archive := Some(out);
  }

  /** compress.c:200-229: every file packed, then the header and the records written. */
  method WriteArchive(infos: seq<FileInfo>, files: seq<File>, totalOriginal: nat, codeLen: array<byte>, codeBits: array<nat>)
    returns (out: seq<byte>)
    requires HoldsCounts(infos, files) && Distinct(infos) && totalOriginal == Total(files)
    requires codeLen.Length == 256 && codeBits.Length == 256 && CodesFit(codeLen[..])
    modifies set k | 0 <= k < |infos| :: infos[k]
    ensures var table := HilosTable(codeLen[..], codeBits[..]);
      out == HeaderBytes(|files|, Total(files), table) + CountedRecords(table, files, Sizes(files))
  {
    CompressEntries(infos, files, codeLen, codeBits);
    var header := WriteHilosHeader(|infos|, totalOriginal, codeLen, codeBits);
    var records := WriteRecords(infos, files, HilosTable(codeLen[..], codeBits[..]));
    out := header + records;
  }

  /**
   * compress.c:147-172: the elements and their counts, then `total_original`
   * and `global_freq` (zero, as a static array starts) summed over them.
   */
  method CountPhase(files: seq<File>) returns (infos: seq<FileInfo>, totalOriginal: nat, globalFreq: array<nat>)
    ensures HoldsCounts(infos, files) && Distinct(infos)
    ensures forall k :: 0 <= k < |infos| ==> fresh(infos[k]) && fresh(infos[k].localFreq)
    ensures fresh(globalFreq) && globalFreq.Length == 256
    ensures globalFreq[..] == Histogram(AllBytes(files)) && totalOriginal == Total(files)
  {
    infos := CountFiles(files);
    globalFreq := new nat[256](_ => 0);
    totalOriginal := Reduce(infos, files, globalFreq);
  }

  /**
   * compress.c:174-198: the leaf list, the merge, then `code_len` and
   * `code_bits` (zero, as static arrays start) filled from the tree.
   */
  method BuildCodes(globalFreq: array<nat>) returns (codeLen: array<byte>, codeBits: array<nat>)
    requires globalFreq.Length == 256
    ensures fresh(codeLen) && fresh(codeBits) && codeLen.Length == 256 && codeBits.Length == 256
    ensures var root := Root(Merged(LeafList(globalFreq[..], 256)));
      codeLen[..] == TreeLens(root) && codeBits[..] == TreeBits(root)
  {
    codeLen := new byte[256](_ => 0);
    codeBits := new nat[256](_ => 0);
    var lista := BuildLeafList(globalFreq);
    var arbol := MergeLoop(lista);
    FillCodes(arbol, codeLen, codeBits);
  }

  // ---------------------------------------------------------------------------
  // The decompressor (decompress.c)

  /** One `ThreadArg`: the name, the count, the segment's length and its offset in the archive. */
  datatype Task = Task(filePath: seq<byte>, symbolCount: nat, byteLen: nat, offsetBytes: nat)

  /** One trip round the segmentation loop: the archive ends, a read goes wrong, or a task and where the next record starts. */
  datatype TaskStep = End | Fail | Next(task: Task, next: nat)

  lemma CeilDiv8Le(used: nat, m: nat)
    requires used <= 8 * m
    ensures CeilDiv8(used) <= m
  {
  }

  /** Every task's segment starts inside data. */
  predicate Within(ts: seq<Task>, data: seq<byte>)
  {
    forall k :: 0 <= k < |ts| ==> ts[k].offsetBytes <= |data|
  }

  function ThenTasks(ts: seq<Task>, r: Option<seq<Task>>): Option<seq<Task>>
  {
    match r
    case None => None
    case Some(x) => Some(ts + x)
  }

  /**
   * decompress.c:180-205: tasks read from pos while `totalChars`, less
   * each count read, stays above zero, or until the archive ends. The
   * file count of the header is never looked at.
   */
  function TasksAsWritten(tree: Arena, data: seq<byte>, pos: nat, totalChars: int): (r: Option<seq<Task>>)
    requires Valid(tree) && pos <= |data|
    decreases |data| - pos, 2
  {
    if totalChars <= 0 || |data| - pos < 4 then Some([])
    else RecordAsWritten(tree, data, pos, totalChars)
  }

  /** The head of the record at pos, then its segment and the tasks after it. */
  function RecordAsWritten(tree: Arena, data: seq<byte>, pos: nat, totalChars: int): (r: Option<seq<Task>>)
    requires Valid(tree) && pos <= |data|
    decreases |data| - pos, 1
  {
    match ParseCountedHead(data[pos..], Wrap32 - 1)
    case None => None
    case Some((name, count, payload)) => TaskAsWritten(tree, data, name, count, |data| - |payload|, totalChars)
  }

  /** One record's segment measured from offset, then the tasks after it while characters remain. */
  function TaskAsWritten(tree: Arena, data: seq<byte>, name: seq<byte>, count: nat, offset: nat, totalChars: int): (r: Option<seq<Task>>)
    requires Valid(tree) && offset <= |data|
    decreases |data| - offset + 1, 0
  {
    match Run(tree, 0, Unpack(data[offset..]), count)
    case None => None
    case Some(run) =>
      CeilDiv8Le(run.used, |data| - offset);
      ThenTasks([Task(name, count, CeilDiv8(run.used), offset)],
                TasksAsWritten(tree, data, offset + CeilDiv8(run.used), totalChars - count))
  }

  /** The corrected segmentation: exactly n tasks, the header's file count; the archive ending first is an error. */
  function TasksCounted(tree: Arena, data: seq<byte>, pos: nat, n: int): (r: Option<seq<Task>>)
    requires Valid(tree) && pos <= |data|
    decreases |data| - pos, 2
  {
    if n <= 0 then Some([])
    else if |data| - pos < 4 then None
    else RecordCounted(tree, data, pos, n)
  }

  function RecordCounted(tree: Arena, data: seq<byte>, pos: nat, n: int): (r: Option<seq<Task>>)
    requires Valid(tree) && pos <= |data|
    decreases |data| - pos, 1
  {
    match ParseCountedHead(data[pos..], Wrap32 - 1)
    case None => None
    case Some((name, count, payload)) => TaskCounted(tree, data, name, count, |data| - |payload|, n)
  }

  function TaskCounted(tree: Arena, data: seq<byte>, name: seq<byte>, count: nat, offset: nat, n: int): (r: Option<seq<Task>>)
    requires Valid(tree) && offset <= |data|
    decreases |data| - offset + 1, 0
  {
    match Run(tree, 0, Unpack(data[offset..]), count)
    case None => None
    case Some(run) =>
      CeilDiv8Le(run.used, |data| - offset);
      ThenTasks([Task(name, count, CeilDiv8(run.used), offset)],
                TasksCounted(tree, data, offset + CeilDiv8(run.used), n - 1))
  }

  /** The tasks read from pos start inside the archive. */
  lemma {:induction false} AsWrittenWithin(tree: Arena, data: seq<byte>, pos: nat, totalChars: int)
    requires Valid(tree) && pos <= |data|
    ensures var r := TasksAsWritten(tree, data, pos, totalChars); r.Some? ==> Within(r.value, data)
    decreases |data| - pos
  {
    if totalChars > 0 && |data| - pos >= 4 && ParseCountedHead(data[pos..], Wrap32 - 1).Some? {
      var (name, count, payload) := ParseCountedHead(data[pos..], Wrap32 - 1).value;
      var offset := |data| - |payload|;
      var run := Run(tree, 0, Unpack(data[offset..]), count);
      assert TasksAsWritten(tree, data, pos, totalChars) == TaskAsWritten(tree, data, name, count, offset, totalChars);
      if run.Some? {
        CeilDiv8Le(run.value.used, |data| - offset);
        var next := offset + CeilDiv8(run.value.used);
        assert TaskAsWritten(tree, data, name, count, offset, totalChars)
            == ThenTasks([Task(name, count, CeilDiv8(run.value.used), offset)], TasksAsWritten(tree, data, next, totalChars - count));
        AsWrittenWithin(tree, data, next, totalChars - count);
        WithinCons(Task(name, count, CeilDiv8(run.value.used), offset), TasksAsWritten(tree, data, next, totalChars - count), data);
      }
    }
  }

  lemma {:induction false} CountedWithin(tree: Arena, data: seq<byte>, pos: nat, n: int)
    requires Valid(tree) && pos <= |data|
    ensures var r := TasksCounted(tree, data, pos, n); r.Some? ==> Within(r.value, data)
    decreases |data| - pos
  {
    if n > 0 && |data| - pos >= 4 && ParseCountedHead(data[pos..], Wrap32 - 1).Some? {
      var (name, count, payload) := ParseCountedHead(data[pos..], Wrap32 - 1).value;
      var offset := |data| - |payload|;
      var run := Run(tree, 0, Unpack(data[offset..]), count);
      assert TasksCounted(tree, data, pos, n) == TaskCounted(tree, data, name, count, offset, n);
      if run.Some? {
        CeilDiv8Le(run.value.used, |data| - offset);
        var next := offset + CeilDiv8(run.value.used);
        assert TaskCounted(tree, data, name, count, offset, n)
            == ThenTasks([Task(name, count, CeilDiv8(run.value.used), offset)], TasksCounted(tree, data, next, n - 1));
        CountedWithin(tree, data, next, n - 1);
        WithinCons(Task(name, count, CeilDiv8(run.value.used), offset), TasksCounted(tree, data, next, n - 1), data);
      }
    }
  }

  lemma WithinCons(t: Task, r: Option<seq<Task>>, data: seq<byte>)
    requires t.offsetBytes <= |data| && (r.Some? ==> Within(r.value, data))
    ensures var r' := ThenTasks([t], r); r'.Some? ==> Within(r'.value, data)
  {
    if r.Some? {
      forall k | 0 <= k < |r.value| + 1 ensures ([t] + r.value)[k].offsetBytes <= |data| {
        if k > 0 {
          assert ([t] + r.value)[k] == r.value[k - 1];
        }
      }
    }
  }

  /**
   * decompressThread (decompress.c:106-142) for one task: processSegment
   * in mode 1 into `outBuf`, then symbolCount bytes of it written. None
   * when the walk fails or the segment ends before symbolCount symbols,
   * which would write the uninitialised tail of `outBuf`.
   */
  function TaskFile(tree: Arena, data: seq<byte>, t: Task): Option<File>
    requires Valid(tree) && t.offsetBytes <= |data|
  {
    match Run(tree, 0, Unpack(data[t.offsetBytes..]), t.symbolCount)
    case None => None
    case Some(run) => if |run.out| < t.symbolCount then None else Some(File(t.filePath, run.out))
  }

  /** The files the threads write, task by task; None as soon as one of them cannot be written. */
  function TaskFiles(tree: Arena, data: seq<byte>, ts: seq<Task>): Option<seq<File>>
    requires Valid(tree) && Within(ts, data)
  {
    if ts == [] then Some([])
    else
      match TaskFile(tree, data, ts[0])
      case None => None
      case Some(f) =>
        assert Within(ts[1..], data) by {
          forall k | 0 <= k < |ts| - 1 ensures ts[1..][k].offsetBytes <= |data| {
            assert ts[1..][k] == ts[k + 1];
          }
        }
        ThenFiles([f], TaskFiles(tree, data, ts[1..]))
  }

  /** The files decompress.c recreates from an archive, with the tree it rebuilt. */
  function HilosDecodedAsWritten(tree: Arena, archive: seq<byte>): Option<seq<File>>
    requires Valid(tree)
  {
    match ParseHeader(archive)
    case None => None
    case Some((h, rest)) =>
      if !HilosShiftsDefined(h.entries) then None
      else
        match TasksAsWritten(tree, archive, |archive| - |rest|, h.totalCharacters)
        case None => None
        case Some(ts) =>
          AsWrittenWithin(tree, archive, |archive| - |rest|, h.totalCharacters);
          TaskFiles(tree, archive, ts)
  }

  /** The corrected reader: as many records as the header's file count says. */
  function HilosDecoded(tree: Arena, archive: seq<byte>): Option<seq<File>>
    requires Valid(tree)
  {
    match ParseHeader(archive)
    case None => None
    case Some((h, rest)) =>
      if !HilosShiftsDefined(h.entries) then None
      else
        match TasksCounted(tree, archive, |archive| - |rest|, h.fileCount)
        case None => None
        case Some(ts) =>
          CountedWithin(tree, archive, |archive| - |rest|, h.fileCount);
          TaskFiles(tree, archive, ts)
  }

  /** The tree rebuilt from the archive's table decodes every triple whenever the codes allow it. */
  predicate HilosRebuiltFrom(tree: Arena, archive: seq<byte>)
    requires Valid(tree)
  {
    match ParseHeader(archive)
    case None => true
    case Some((h, _)) =>
      HilosShiftsDefined(h.entries) && PrefixFree(Codes(h.entries)) ==> DecodesAll(tree, h.entries)
  }

  /**
   * decompress.c:183-191 from position pos, while `totalChars` is left
   * above zero: the unsigned name length (the loop ends when it cannot be
   * read), the name, the unsigned count, then processSegment in mode 0,
   * which leaves the file at the byte after the last one it read. Fail
   * covers what C leaves undefined: `malloc(nameLen + 1)` wrapping to
   * `malloc(0)`, a name or count cut short (whose bytes stay
   * uninitialised), and the walk off a missing child. The step is the one
   * TasksAsWritten takes.
   */
  method ReadTask(tree: Arena, archive: seq<byte>, pos: nat, ghost left: int) returns (step: TaskStep)
    requires Valid(tree) && pos <= |archive| && left > 0
    ensures step.End? ==> TasksAsWritten(tree, archive, pos, left) == Some([])
    ensures step.Fail? ==> TasksAsWritten(tree, archive, pos, left) == None
    ensures step.Next? ==> (
      && pos + 8 + |step.task.filePath| == step.task.offsetBytes
      && step.task.offsetBytes + step.task.byteLen == step.next <= |archive|
      && TasksAsWritten(tree, archive, pos, left)
         == ThenTasks([step.task], TasksAsWritten(tree, archive, step.next, left - step.task.symbolCount)))
  {
    ghost var d := archive[pos..];
    if |archive| - pos < 4 {
      return End;
    }
    assert d[..4] == archive[pos..pos + 4];
    var nameLen := FromLE(archive[pos..pos + 4]);
    if nameLen >= Wrap32 - 1 || |archive| - pos < 8 + nameLen {
      return Fail;
    }
    assert d[4..4 + nameLen] == archive[pos + 4..pos + 4 + nameLen];
    assert d[4 + nameLen..4 + nameLen + 4] == archive[pos + 4 + nameLen..pos + 8 + nameLen];
    assert d[4 + nameLen + 4..] == archive[pos + 8 + nameLen..];
    var fname := archive[pos + 4..pos + 4 + nameLen];
    var symbolCount := FromLE(archive[pos + 4 + nameLen..pos + 8 + nameLen]);
    var offset := pos + 8 + nameLen;
    assert TasksAsWritten(tree, archive, pos, left) == TaskAsWritten(tree, archive, fname, symbolCount, offset, left);
    var seg := ProcessSegment(tree, archive, symbolCount, offset, 0);
    if seg.None? {
      assert TaskAsWritten(tree, archive, fname, symbolCount, offset, left) == None;
      return Fail;
    }
    ghost var used := Run(tree, 0, Unpack(archive[offset..]), symbolCount).value.used;
    CeilDiv8Le(used, |archive| - offset);
    step := Next(Task(fname, symbolCount, seg.value.byteLen, offset), offset + seg.value.byteLen);
    assert TaskAsWritten(tree, archive, fname, symbolCount, offset, left)
        == ThenTasks([step.task], TasksAsWritten(tree, archive, step.next, left - symbolCount));
  }

  lemma ThenTasksSnoc(acc: seq<Task>, t: Task, r: Option<seq<Task>>)
    ensures ThenTasks(acc, ThenTasks([t], r)) == ThenTasks(acc + [t], r)
  {
    if r.Some? {
      assert acc + ([t] + r.value) == acc + [t] + r.value;
    }
  }

  lemma ThenTasksNone(acc: seq<Task>, r: Option<seq<Task>>)
    ensures r.None? ==> ThenTasks(acc, r) == None
    ensures r == Some([]) ==> ThenTasks(acc, r) == Some(acc)
    ensures ThenTasks([], r) == r
  {
    if r.Some? {
      assert [] + r.value == r.value && acc + [] == acc;
    }
  }

  /**
   * decompress.c:180-205: records read from start while `totalChars` is
   * above zero, each count read taken off it.
   */
  method Segmentation(tree: Arena, archive: seq<byte>, start: nat, totalCharacters: int) returns (tasks: Option<seq<Task>>)
    requires Valid(tree) && start <= |archive|
    ensures tasks == TasksAsWritten(tree, archive, start, totalCharacters)
  {
    var totalChars := totalCharacters;
    var pos := start;
    var acc: seq<Task> := [];
    ThenTasksNone([], TasksAsWritten(tree, archive, pos, totalChars));
    while totalChars > 0
      invariant pos <= |archive|
      invariant TasksAsWritten(tree, archive, start, totalCharacters) == ThenTasks(acc, TasksAsWritten(tree, archive, pos, totalChars))
      decreases |archive| - pos
    {
      var step := ReadTask(tree, archive, pos, totalChars);
      if step.End? || step.Fail? {
        ThenTasksNone(acc, TasksAsWritten(tree, archive, pos, totalChars));
        return if step.End? then Some(acc) else None;
      }
      ThenTasksSnoc(acc, step.task, TasksAsWritten(tree, archive, step.next, totalChars - step.task.symbolCount));
      acc := acc + [step.task];
      totalChars := totalChars - step.task.symbolCount;
      pos := step.next;
    }
    ThenTasksNone(acc, TasksAsWritten(tree, archive, pos, totalChars));
    tasks := Some(acc);
  }

  // ---------------------------------------------------------------------------
  // Output paths (decompress.c:118-126)

  /** The byte '/'. */
  const Slash: byte := 47

  /** The C string a byte sequence holds: everything before its first 0. */
  function CString(s: seq<byte>): (r: seq<byte>)
    ensures r <= s && 0 !in r && (|r| < |s| ==> s[|r|] == 0)
  {
    if s == [] || s[0] == 0 then [] else [s[0]] + CString(s[1..])
  }

  /** The longest text `snprintf` fits in `char fullPath[4096]`. */
  const PathLimit: nat := 4095

  /** decompress.c:120: directory, '/', file name, cut to what the buffer holds. */
  function FullPath(directory: seq<byte>, filePath: seq<byte>): (r: seq<byte>)
    ensures 1 <= |r| <= PathLimit && 0 !in r
    ensures r <= CString(directory) + [Slash] + CString(filePath)
  {
    var p := CString(directory) + [Slash] + CString(filePath);
    if |p| > PathLimit then p[..PathLimit] else p
  }

  /** The front parts of s ending just before a '/' found at position from or later. */
  function PrefixesFrom(s: seq<byte>, from: nat): seq<seq<byte>>
    decreases |s| - from
  {
    if from >= |s| then []
    else if s[from] == Slash then [s[..from]] + PrefixesFrom(s, from + 1)
    else PrefixesFrom(s, from + 1)
  }

  /**
   * The directories decompress.c:121-126 asks `mkdir` for: the path up to
   * each '/' past the first byte, shortest first.
   */
  function DirPrefixes(s: seq<byte>): seq<seq<byte>>
  {
    PrefixesFrom(s, 1)
  }

  /** What PrefixesFrom holds: exactly the prefixes of s that stop before a '/' at from or later. */
  lemma {:induction false} PrefixesFromMembers(s: seq<byte>, from: nat)
    ensures forall p :: p in PrefixesFrom(s, from) ==> from <= |p| < |s| && p == s[..|p|] && s[|p|] == Slash
    ensures forall i :: from <= i < |s| && s[i] == Slash ==> s[..i] in PrefixesFrom(s, from)
    decreases |s| - from
  {
    if from < |s| {
      PrefixesFromMembers(s, from + 1);
    }
  }

  /** No '/' at from up to q, so the prefixes start at q. */
  lemma {:induction false} PrefixesSkip(s: seq<byte>, from: nat, q: nat)
    requires from <= q <= |s|
    requires forall j :: from <= j < q ==> s[j] != Slash
    ensures PrefixesFrom(s, from) == PrefixesFrom(s, q)
    decreases q - from
  {
    if from < q {
      PrefixesSkip(s, from + 1, q);
    }
  }

  lemma {:induction false} PrefixesAppend(a: seq<byte>, b: seq<byte>, from: nat)
    requires from <= |a|
    ensures PrefixesFrom(a + b, from) == PrefixesFrom(a, from) + PrefixesFrom(a + b, |a|)
    decreases |a| - from
  {
    if from < |a| {
      PrefixesAppend(a, b, from + 1);
      assert (a + b)[..from] == a[..from];
    }
  }

  /**
   * A file name with no '/' in it, under a directory that is not empty,
   * makes `mkdir` run on the directory's own parents and then on the
   * directory, when the whole path fits the buffer.
   */
  lemma FlatNameDirectories(directory: seq<byte>, filePath: seq<byte>)
    requires |CString(directory)| >= 1 && Slash !in filePath && 0 !in filePath
    requires |CString(directory)| + 1 + |filePath| <= PathLimit
    ensures FullPath(directory, filePath) == CString(directory) + [Slash] + filePath
    ensures DirPrefixes(FullPath(directory, filePath)) == DirPrefixes(CString(directory)) + [CString(directory)]
  {
    var d := CString(directory);
    CStringNoZero(filePath);
    var p := d + [Slash] + filePath;
    assert p == d + ([Slash] + filePath);
    PrefixesAppend(d, [Slash] + filePath, 1);
    assert p[|d|] == Slash && p[..|d|] == d;
    PrefixesSkip(p, |d| + 1, |p|);
  }

  lemma CStringNoZero(s: seq<byte>)
    requires 0 !in s
    ensures CString(s) == s
  {
  }

  /** strchr(from, c) on a C string held in a with its terminating 0: the next c, or -1 for NULL. */
  method StrChr(a: array<byte>, from: nat, c: byte) returns (i: int)
    requires from < a.Length && a[a.Length - 1] == 0 && 0 !in a[..a.Length - 1] && c != 0
    ensures i == -1 || (from <= i < a.Length - 1 && a[i] == c)
    ensures forall j :: from <= j < (if i == -1 then a.Length - 1 else i) ==> a[j] != c
  {
    var j := from;
    while a[j] != 0
      invariant from <= j < a.Length
      invariant forall k :: from <= k < j ==> a[k] != c
      decreases a.Length - j
    {
      if a[j] == c {
        return j;
      }
      assert a[j] in a[..a.Length - 1] by {
        if j == a.Length - 1 {
          assert false;
        }
        assert a[..a.Length - 1][j] == a[j];
      }
      j := j + 1;
    }
    return -1;
  }

  /** A C string with one '/' replaced by the terminator reads as the path up to it. */
  lemma CutAt(s: seq<byte>, q: nat)
    requires q < |s| && 0 !in s
    ensures CString((s + [0])[q := 0]) == s[..q]
  {
    var t := (s + [0])[q := 0];
    assert t == s[..q] + ([0] + s[q + 1..] + [0]);
    CStringAppend(s[..q], [0] + s[q + 1..] + [0]);
  }

  lemma {:induction false} CStringAppend(a: seq<byte>, b: seq<byte>)
    requires 0 !in a && b != [] && b[0] == 0
    ensures CString(a + b) == a
  {
    if a != [] {
      assert (a + b)[1..] == a[1..] + b;
      CStringAppend(a[1..], b);
    }
  }

  /**
   * decompress.c:122: the next '/' at from or later, if any; the
   * directories asked for from there on start at it.
   */
  method NextSlash(path: array<byte>, from: nat) returns (q: int)
    requires path.Length >= 2 && path[path.Length - 1] == 0 && 0 !in path[..path.Length - 1]
    requires from < path.Length
    ensures q == -1 || (from <= q < path.Length - 1 && path[q] == Slash)
    ensures PrefixesFrom(path[..path.Length - 1], from)
         == if q == -1 then [] else PrefixesFrom(path[..path.Length - 1], q)
  {
    ghost var s := path[..path.Length - 1];
    q := StrChr(path, from, Slash);
    if q != -1 {
      PrefixesSkip(s, from, q);
    } else {
      PrefixesSkip(s, from, |s|);
    }
  }

  /**
   * decompress.c:123-125: the path is cut at the '/' at q, `mkdir` gets the
   * text before it, and the '/' is put back.
   */
  method CutAndRestore(path: array<byte>, q: nat) returns (dir: seq<byte>)
    requires path.Length >= 2 && path[path.Length - 1] == 0 && 0 !in path[..path.Length - 1]
    requires q < path.Length - 1 && path[q] == Slash
    modifies path
    ensures path[..] == old(path[..])
    ensures dir == path[..q]
  {
    ghost var s := path[..path.Length - 1];
    ghost var whole := path[..];
    assert whole == s + [0];
    path[q] := 0;
    assert path[..] == whole[q := 0];
    CutAt(s, q);
    dir := CString(path[..]);
    path[q] := Slash;
    assert path[..] == whole;
  }

  /**
   * decompress.c:121-126 on the path held in the buffer: at each '/' past
   * the first byte the path is cut there, `mkdir` gets what is left, and
   * the '/' is put back.
   */
  method MakeDirectories(path: array<byte>) returns (made: seq<seq<byte>>)
    requires path.Length >= 2 && path[path.Length - 1] == 0 && 0 !in path[..path.Length - 1]
    modifies path
    ensures path[..] == old(path[..])
    ensures made == DirPrefixes(path[..path.Length - 1])
  {
    ghost var s := path[..path.Length - 1];
    assert path[..] == s + [0];
    made := [];
    var q := NextSlash(path, 1);
    while q != -1
      invariant path[..] == s + [0]
      invariant q == -1 || (1 <= q < |s| && s[q] == Slash)
      invariant DirPrefixes(s) == made + (if q == -1 then [] else PrefixesFrom(s, q))
      decreases if q == -1 then 0 else |s| - q
    {
      var dir := CutAndRestore(path, q);
      assert dir == s[..q];
      assert PrefixesFrom(s, q) == [dir] + PrefixesFrom(s, q + 1);
      made := made + [dir];
      assert path[..path.Length - 1] == s;
      q := NextSlash(path, q + 1);
    }
    assert made + [] == made;
  }

  // ---------------------------------------------------------------------------
  // The threads (decompress.c:106-142, 208-215)

  /** Where a thread writes: the full path and the directories it asks for first. */
  datatype Placement = Placement(fullPath: seq<byte>, made: seq<seq<byte>>)

  function PlacementOf(directory: seq<byte>, filePath: seq<byte>): Placement
  {
    Placement(FullPath(directory, filePath), DirPrefixes(FullPath(directory, filePath)))
  }

  /** The placement of each task, in order. */
  function Placements(directory: seq<byte>, ts: seq<Task>): (r: seq<Placement>)
    ensures |r| == |ts| && forall k :: 0 <= k < |ts| ==> r[k] == PlacementOf(directory, ts[k].filePath)
  {
    seq(|ts|, k requires 0 <= k < |ts| => PlacementOf(directory, ts[k].filePath))
  }

  lemma PlacementsSnoc(directory: seq<byte>, ts: seq<Task>, i: nat)
    requires i < |ts|
    ensures Placements(directory, ts[..i + 1]) == Placements(directory, ts[..i]) + [PlacementOf(directory, ts[i].filePath)]
  {
    assert ts[..i + 1][i] == ts[i];
  }

  /** One thread: the segment decoded into `outBuf`, the path built and its directories made. */
  method DecompressThread(tree: Arena, archive: seq<byte>, t: Task, directory: seq<byte>)
    returns (file: Option<File>, placed: Placement)
    requires Valid(tree) && t.offsetBytes <= |archive|
    ensures file == TaskFile(tree, archive, t)
    ensures placed == PlacementOf(directory, t.filePath)
  {
    var seg := ProcessSegment(tree, archive, t.symbolCount, t.offsetBytes, 1);
    var fullPath := FullPath(directory, t.filePath);
    var buffer := new byte[|fullPath| + 1](i requires 0 <= i <= |fullPath| => if i < |fullPath| then fullPath[i] else 0);
    assert buffer[..|fullPath|] == fullPath;
    var made := MakeDirectories(buffer);
    placed := Placement(fullPath, made);
    if seg.None? || |seg.value.buffer| < t.symbolCount {
      file := None;
    } else {
      file := Some(File(t.filePath, seg.value.buffer));
    }
  }

  /** One thread's file, added to what the threads before it gave. */
  lemma TasksLoopStep(tree: Arena, data: seq<byte>, ts: seq<Task>, i: nat, files: seq<File>, file: Option<File>, ok: bool)
    requires Valid(tree) && Within(ts, data) && i < |ts| && Within(ts[i..], data)
    requires file == TaskFile(tree, data, ts[i])
    requires ok ==> TaskFiles(tree, data, ts) == ThenFiles(files, TaskFiles(tree, data, ts[i..]))
    requires !ok ==> TaskFiles(tree, data, ts) == None
    ensures Within(ts[i + 1..], data)
    ensures !ok || file.None? ==> TaskFiles(tree, data, ts) == None
    ensures ok && file.Some? ==> TaskFiles(tree, data, ts) == ThenFiles(files + [file.value], TaskFiles(tree, data, ts[i + 1..]))
  {
    assert ts[i..][0] == ts[i] && ts[i..][1..] == ts[i + 1..];
    if ok && file.Some? {
      ThenFilesSnoc(files, file.value, TaskFiles(tree, data, ts[i + 1..]));
    }
  }

  lemma ThenFilesSnoc(acc: seq<File>, f: File, r: Option<seq<File>>)
    ensures ThenFiles(acc, ThenFiles([f], r)) == ThenFiles(acc + [f], r)
  {
    if r.Some? {
      assert acc + ([f] + r.value) == acc + [f] + r.value;
    }
  }

  /**
   * decompress.c:208-215: a thread for every task, all joined. The files
   * are those TaskFiles gives, and each thread's placement comes from the
   * task's own name.
   */
  method DecompressTasks(tree: Arena, archive: seq<byte>, tasks: seq<Task>, directory: seq<byte>)
    returns (r: Option<seq<File>>, placed: seq<Placement>)
    requires Valid(tree) && Within(tasks, archive)
    ensures r == TaskFiles(tree, archive, tasks)
    ensures placed == Placements(directory, tasks)
  {
    var files: seq<File> := [];
    var ok := true;
    placed := [];
    assert tasks[0..] == tasks && tasks[..0] == [];
    assert ThenFiles([], TaskFiles(tree, archive, tasks)) == TaskFiles(tree, archive, tasks) by {
      if TaskFiles(tree, archive, tasks).Some? {
        assert [] + TaskFiles(tree, archive, tasks).value == TaskFiles(tree, archive, tasks).value;
      }
    }
    var i := 0;
    while i < |tasks|
      invariant i <= |tasks| && Within(tasks[i..], archive)
      invariant ok ==> TaskFiles(tree, archive, tasks) == ThenFiles(files, TaskFiles(tree, archive, tasks[i..]))
      invariant !ok ==> TaskFiles(tree, archive, tasks) == None
      invariant placed == Placements(directory, tasks[..i])
    {
      var file, where := DecompressThread(tree, archive, tasks[i], directory);
      TasksLoopStep(tree, archive, tasks, i, files, file, ok);
      PlacementsSnoc(directory, tasks, i);
      placed := placed + [where];
      if file.None? {
        ok := false;
      } else if ok {
        files := files + [file.value];
      }
      i := i + 1;
    }
    assert tasks[..i] == tasks;
    if ok {
      assert tasks[i..] == [];
      assert files + [] == files;
      r := Some(files);
    } else {
      r := None;
    }
  }

  /**
   * `main` (decompress.c:144-223) after the output directory is made: the
   * header, the tree hung from its triples, the tasks, then the threads.
   */
  method Decompress(archive: seq<byte>, directory: seq<byte>)
    returns (r: Option<seq<File>>, placed: seq<Placement>, tree: Arena)
    ensures Valid(tree) && HilosRebuiltFrom(tree, archive)
    ensures r == HilosDecodedAsWritten(tree, archive)
  {
    placed := [];
    var parsed := ParseHeader(archive);
    if parsed.None? || !HilosShiftsDefined(parsed.value.0.entries) {
      tree := EmptyTree();
      r := None;
      return;
    }
    var header := parsed.value.0;
    var root := CreateTree(header.entries);
    tree := root;
    var tasks := Segmentation(root, archive, |archive| - |parsed.value.1|, header.totalCharacters);
    if tasks.None? {
      r := None;
      return;
    }
    AsWrittenWithin(root, archive, |archive| - |parsed.value.1|, header.totalCharacters);
    r, placed := DecompressTasks(root, archive, tasks.value, directory);
  }

  // ---------------------------------------------------------------------------
  // The round trips

  /**
   * What the round trips need of the files: a tree of two leaves or more
   * no taller than 32, so every code fits the `uint32_t` of
   * `thread_compress`; counts that fit the header's fields; names that fit
   * `nameLen` with room for its terminator; and contents that fit the
   * element's `size`.
   */
  predicate HilosReady(files: seq<File>)
  {
    && HilosTree(files).Some? && HilosTree(files).value.Node? && Height(HilosTree(files).value) <= 32
    && |files| < Int32Limit && |AllBytes(files)| < Int64Limit
    && forall k :: 0 <= k < |files| ==> |files[k].name| < Wrap32 - 1 && |files[k].content| < Wrap32
  }

  /** A payload, whatever follows it, decodes to its bytes within exactly its own length. */
  lemma PayloadRuns(tree: Arena, table: seq<Entry>, data: seq<byte>, tail: seq<byte>)
    requires Valid(tree) && DecodesAll(tree, table) && InTable(table, data)
    ensures Run(tree, 0, Unpack(Payload(table, data) + tail), |data|) == Some(Decoded(data, |Encode(TableCodes(table), data)|))
    ensures CeilDiv8(|Encode(TableCodes(table), data)|) == |Payload(table, data)|
  {
    var codes := TableCodes(table);
    var e := Encode(codes, data);
    DecodesEachByte(tree, table, data);
    PayloadBits(table, data, tail);
    RunEncodeExact(tree, codes, data, Zeros(8 * CeilDiv8(|e|) - |e|) + Unpack(tail));
  }

  /** The task a record gives, read at pos. */
  function RecordTask(f: File, table: seq<Entry>, pos: nat): Task
  {
    Task(f.name, |f.content|, |Payload(table, f.content)|, pos + 8 + |f.name|)
  }

  /** The head of a record read at pos: its name, its count, and its payload with all that follows. */
  lemma RecordHeadAt(table: seq<Entry>, archive: seq<byte>, pos: nat, f: File, tail: seq<byte>)
    requires |f.name| < Wrap32 - 1 && |f.content| < Wrap32 && pos <= |archive|
    requires archive[pos..] == CountedRecordBytes(f.name, |f.content|, Payload(table, f.content)) + tail
    ensures |archive| - pos >= 4
    ensures ParseCountedHead(archive[pos..], Wrap32 - 1) == Some((f.name, |f.content|, Payload(table, f.content) + tail))
    ensures |archive| - |Payload(table, f.content) + tail| == pos + 8 + |f.name|
  {
    var payload := Payload(table, f.content);
    Limits();
    assert CountedRecordBytes(f.name, |f.content|, payload) + tail == CountedRecordBytes(f.name, |f.content|, payload + tail);
    ParseCountedHeadBytes(f.name, |f.content|, payload + tail, Wrap32 - 1);
  }

  /** A record's payload, read at its task's offset, decodes its bytes within its own length. */
  lemma RecordRunAt(tree: Arena, table: seq<Entry>, archive: seq<byte>, pos: nat, f: File, tail: seq<byte>)
    requires Valid(tree) && DecodesAll(tree, table) && InTable(table, f.content)
    requires |f.name| < Wrap32 - 1 && |f.content| < Wrap32 && pos <= |archive|
    requires archive[pos..] == CountedRecordBytes(f.name, |f.content|, Payload(table, f.content)) + tail
    ensures var t := RecordTask(f, table, pos);
      && t.offsetBytes + t.byteLen <= |archive| && archive[t.offsetBytes + t.byteLen..] == tail
      && archive[t.offsetBytes..] == Payload(table, f.content) + tail
      && Run(tree, 0, Unpack(archive[t.offsetBytes..]), |f.content|) == Some(Decoded(f.content, |Encode(TableCodes(table), f.content)|))
      && CeilDiv8(|Encode(TableCodes(table), f.content)|) == t.byteLen
  {
    var payload := Payload(table, f.content);
    var t := RecordTask(f, table, pos);
    RecordHeadAt(table, archive, pos, f, tail);
    PayloadRuns(tree, table, f.content, tail);
    assert archive[t.offsetBytes..] == payload + tail;
    assert archive[t.offsetBytes + t.byteLen..] == tail;
  }

  /** A task read at pos: its head parses there and its segment decodes its characters. */
  predicate TaskAt(tree: Arena, archive: seq<byte>, pos: nat, t: Task)
    requires Valid(tree)
  {
    && pos <= |archive| && |archive| - pos >= 4 && t.offsetBytes <= |archive|
    && ParseCountedHead(archive[pos..], Wrap32 - 1) == Some((t.filePath, t.symbolCount, archive[t.offsetBytes..]))
    && Run(tree, 0, Unpack(archive[t.offsetBytes..]), t.symbolCount).Some?
    && t.byteLen == CeilDiv8(Run(tree, 0, Unpack(archive[t.offsetBytes..]), t.symbolCount).value.used)
  }

  /** The reader as written, with characters left, takes the first task of records at pos and goes on after it. */
  lemma AsWrittenAt(tree: Arena, archive: seq<byte>, pos: nat, ts: seq<Task>, files: seq<File>, left: int)
    requires Valid(tree) && pos <= |archive| && RecordsAt(tree, archive, pos, ts, files) && ts != [] && left > 0
    ensures ts[0].offsetBytes + ts[0].byteLen <= |archive|
    ensures TasksAsWritten(tree, archive, pos, left)
         == ThenTasks([ts[0]], TasksAsWritten(tree, archive, ts[0].offsetBytes + ts[0].byteLen, left - ts[0].symbolCount))
  {
    var t := ts[0];
    assert RecordsFrom(tree, archive, pos, ts, files);
    assert RecordHere(tree, archive, pos, ts, files);
    var d := Run(tree, 0, Unpack(archive[t.offsetBytes..]), t.symbolCount).value;
    assert |archive| - |archive[t.offsetBytes..]| == t.offsetBytes;
    CeilDiv8Le(d.used, |archive| - t.offsetBytes);
    assert TaskAsWritten(tree, archive, t.filePath, t.symbolCount, t.offsetBytes, left)
        == ThenTasks([t], TasksAsWritten(tree, archive, t.offsetBytes + t.byteLen, left - t.symbolCount));
  }

  /** The corrected reader, with records left to read, takes the first task of records at pos and goes on after it. */
  lemma CountedAt(tree: Arena, archive: seq<byte>, pos: nat, ts: seq<Task>, files: seq<File>, n: int)
    requires Valid(tree) && pos <= |archive| && RecordsAt(tree, archive, pos, ts, files) && ts != [] && n > 0
    ensures ts[0].offsetBytes + ts[0].byteLen <= |archive|
    ensures TasksCounted(tree, archive, pos, n)
         == ThenTasks([ts[0]], TasksCounted(tree, archive, ts[0].offsetBytes + ts[0].byteLen, n - 1))
  {
    var t := ts[0];
    assert RecordsFrom(tree, archive, pos, ts, files);
    assert RecordHere(tree, archive, pos, ts, files);
    var d := Run(tree, 0, Unpack(archive[t.offsetBytes..]), t.symbolCount).value;
    assert |archive| - |archive[t.offsetBytes..]| == t.offsetBytes;
    CeilDiv8Le(d.used, |archive| - t.offsetBytes);
    assert TaskCounted(tree, archive, t.filePath, t.symbolCount, t.offsetBytes, n)
        == ThenTasks([t], TasksCounted(tree, archive, t.offsetBytes + t.byteLen, n - 1));
  }

  /** A record read at pos is a task read there, whose file comes back, and what follows it is tail. */
  lemma RecordTaskAt(tree: Arena, table: seq<Entry>, archive: seq<byte>, pos: nat, f: File, tail: seq<byte>)
    requires Valid(tree) && DecodesAll(tree, table) && InTable(table, f.content)
    requires |f.name| < Wrap32 - 1 && |f.content| < Wrap32 && pos <= |archive|
    requires archive[pos..] == CountedRecordBytes(f.name, |f.content|, Payload(table, f.content)) + tail
    ensures var t := RecordTask(f, table, pos);
      && TaskAt(tree, archive, pos, t) && TaskFile(tree, archive, t) == Some(f)
      && t.offsetBytes + t.byteLen <= |archive| && archive[t.offsetBytes + t.byteLen..] == tail
  {
    RecordHeadAt(table, archive, pos, f, tail);
    RecordRunAt(tree, table, archive, pos, f, tail);
  }

  /**
   * Once tail holds records of the files after f, records of f and them
   * start at pos.
   */
  lemma RecordStep(tree: Arena, table: seq<Entry>, archive: seq<byte>, pos: nat, f: File, tail: seq<byte>,
                   ts: seq<Task>, files: seq<File>)
    requires Valid(tree) && DecodesAll(tree, table) && InTable(table, f.content)
    requires |f.name| < Wrap32 - 1 && |f.content| < Wrap32 && pos <= |archive|
    requires archive[pos..] == CountedRecordBytes(f.name, |f.content|, Payload(table, f.content)) + tail
    requires |ts| == |files| && ts != [] && ts[0] == RecordTask(f, table, pos) && files[0] == f
    ensures var t := RecordTask(f, table, pos);
      && t.offsetBytes + t.byteLen <= |archive| && archive[t.offsetBytes + t.byteLen..] == tail
      && (RecordsAt(tree, archive, t.offsetBytes + t.byteLen, ts[1..], files[1..]) ==> RecordsAt(tree, archive, pos, ts, files))
  {
    RecordTaskAt(tree, table, archive, pos, f, tail);
    var t := RecordTask(f, table, pos);
    if RecordsAt(tree, archive, t.offsetBytes + t.byteLen, ts[1..], files[1..]) {
      RecordsAtIntro(tree, archive, pos, ts, files);
    }
  }

  /** A task read at pos that gives back the first file, then records of the others. */
  lemma RecordsAtIntro(tree: Arena, archive: seq<byte>, pos: nat, ts: seq<Task>, files: seq<File>)
    requires Valid(tree) && |ts| == |files| && ts != []
    requires TaskAt(tree, archive, pos, ts[0]) && TaskFile(tree, archive, ts[0]) == Some(files[0])
    requires RecordsAt(tree, archive, ts[0].offsetBytes + ts[0].byteLen, ts[1..], files[1..])
    ensures RecordsAt(tree, archive, pos, ts, files)
  {
    assert RecordHere(tree, archive, pos, ts, files);
    assert RecordsFrom(tree, archive, pos, ts, files);
  }

  /** Sizes below 2^32 are written unchanged. */
  lemma SizesLengths(files: seq<File>)
    requires forall k :: 0 <= k < |files| ==> |files[k].content| < Wrap32
    ensures Sizes(files) == Lengths(files)
  {
    forall k | 0 <= k < |files| ensures Sizes(files)[k] == Lengths(files)[k] {
      SmallMod(|files[k].content|, Wrap32);
    }
  }

  /** What each file of a round trip needs of the table. */
  predicate Recordable(table: seq<Entry>, files: seq<File>)
  {
    forall k :: 0 <= k < |files| ==>
      |files[k].name| < Wrap32 - 1 && |files[k].content| < Wrap32 && InTable(table, files[k].content)
  }

  lemma RecordableTail(table: seq<Entry>, files: seq<File>)
    requires files != [] && Recordable(table, files)
    ensures Recordable(table, files[1..])
  {
    forall k | 0 <= k < |files| - 1 ensures files[1..][k] == files[k + 1] {
    }
  }

  /** The files of a task list that starts with t. */
  lemma TaskFilesCons(tree: Arena, data: seq<byte>, t: Task, ts: seq<Task>)
    requires Valid(tree) && t.offsetBytes <= |data| && Within(ts, data)
    ensures Within([t] + ts, data)
    ensures TaskFiles(tree, data, [t] + ts) ==
      match TaskFile(tree, data, t)
      case None => None
      case Some(f) => ThenFiles([f], TaskFiles(tree, data, ts))
  {
    WithinCons(t, Some(ts), data);
    assert ([t] + ts)[0] == t && ([t] + ts)[1..] == ts;
  }

  /**
   * The files a reader that stops when the characters run out gives back:
   * none once every byte is used, so the empty files after the last
   * nonempty one are lost.
   */
  function Kept(files: seq<File>): seq<File>
  {
    if AllBytes(files) == [] then [] else [files[0]] + Kept(files[1..])
  }

  /**
   * Tasks read one after another from pos, each giving back its file of
   * files, whose characters it counts.
   */
  predicate RecordsAt(tree: Arena, archive: seq<byte>, pos: nat, ts: seq<Task>, files: seq<File>)
    requires Valid(tree)
    decreases |ts|, 2
  {
    |ts| == |files| && (ts != [] ==> RecordsFrom(tree, archive, pos, ts, files))
  }

  /**
   * The first task of RecordsAt counts the characters of the first file,
   * and RecordHere holds at pos. (The layers keep the unfolding of the
   * archive's bytes behind explicit steps.)
   */
  predicate RecordsFrom(tree: Arena, archive: seq<byte>, pos: nat, ts: seq<Task>, files: seq<File>)
    requires Valid(tree) && |ts| == |files| && ts != []
    decreases |ts|, 1
  {
    ts[0].symbolCount == |files[0].content| && RecordHere(tree, archive, pos, ts, files)
  }

  /** The first task of RecordsAt is read at pos and gives back the first file; the others follow it. */
  predicate RecordHere(tree: Arena, archive: seq<byte>, pos: nat, ts: seq<Task>, files: seq<File>)
    requires Valid(tree) && |ts| == |files| && ts != []
    decreases |ts|, 0
  {
    && TaskAt(tree, archive, pos, ts[0])
    && TaskFile(tree, archive, ts[0]) == Some(files[0])
    && RecordsAt(tree, archive, ts[0].offsetBytes + ts[0].byteLen, ts[1..], files[1..])
  }

  /** After the first task of records come records of the other files. */
  lemma RecordsAtNext(tree: Arena, archive: seq<byte>, pos: nat, ts: seq<Task>, files: seq<File>)
    requires Valid(tree) && RecordsAt(tree, archive, pos, ts, files) && ts != []
    ensures RecordsAt(tree, archive, ts[0].offsetBytes + ts[0].byteLen, ts[1..], files[1..])
  {
    assert RecordsFrom(tree, archive, pos, ts, files);
    assert RecordHere(tree, archive, pos, ts, files);
  }

  /** The first task of records gives back the first file, and lies within the archive. */
  lemma RecordsAtFile(tree: Arena, archive: seq<byte>, pos: nat, ts: seq<Task>, files: seq<File>)
    requires Valid(tree) && RecordsAt(tree, archive, pos, ts, files) && ts != []
    ensures ts[0].offsetBytes <= |archive| && TaskFile(tree, archive, ts[0]) == Some(files[0])
  {
    assert RecordsFrom(tree, archive, pos, ts, files);
    assert RecordHere(tree, archive, pos, ts, files);
  }

  /** The tasks of the records of files written from pos. */
  function RecordTasks(table: seq<Entry>, files: seq<File>, pos: nat): (ts: seq<Task>)
    ensures |ts| == |files|
    decreases |files|
  {
    if files == [] then []
    else
      var t := RecordTask(files[0], table, pos);
      [t] + RecordTasks(table, files[1..], t.offsetBytes + t.byteLen)
  }

  lemma RecordTasksCons(table: seq<Entry>, files: seq<File>, pos: nat)
    requires files != []
    ensures var t := RecordTask(files[0], table, pos);
      RecordTasks(table, files, pos)[0] == t
      && RecordTasks(table, files, pos)[1..] == RecordTasks(table, files[1..], t.offsetBytes + t.byteLen)
  {
    var t := RecordTask(files[0], table, pos);
    var rest := RecordTasks(table, files[1..], t.offsetBytes + t.byteLen);
    assert RecordTasks(table, files, pos) == [t] + rest;
    assert ([t] + rest)[1..] == rest;
  }

  /** The records of files, written from pos, are read back there one task per file. */
  lemma {:induction false} RecordsOf(tree: Arena, table: seq<Entry>, archive: seq<byte>, pos: nat, files: seq<File>)
    requires Valid(tree) && DecodesAll(tree, table) && Recordable(table, files) && pos <= |archive|
    requires archive[pos..] == CountedRecords(table, files, Lengths(files))
    ensures RecordsAt(tree, archive, pos, RecordTasks(table, files, pos), files)
    decreases |files|
  {
    if files != [] {
      var t := RecordTask(files[0], table, pos);
      FirstRecord(tree, table, archive, pos, files);
      RecordsOf(tree, table, archive, t.offsetBytes + t.byteLen, files[1..]);
    }
  }

  /**
   * The first record of files, read at pos, and the records of the others
   * after it: once those read back, all of them do.
   */
  lemma FirstRecord(tree: Arena, table: seq<Entry>, archive: seq<byte>, pos: nat, files: seq<File>)
    requires Valid(tree) && DecodesAll(tree, table) && Recordable(table, files) && pos <= |archive| && files != []
    requires archive[pos..] == CountedRecords(table, files, Lengths(files))
    ensures var t := RecordTask(files[0], table, pos);
      && t.offsetBytes + t.byteLen <= |archive|
      && archive[t.offsetBytes + t.byteLen..] == CountedRecords(table, files[1..], Lengths(files[1..]))
      && Recordable(table, files[1..])
      && (RecordsAt(tree, archive, t.offsetBytes + t.byteLen, RecordTasks(table, files[1..], t.offsetBytes + t.byteLen), files[1..])
          ==> RecordsAt(tree, archive, pos, RecordTasks(table, files, pos), files))
  {
    var rest := CountedRecords(table, files[1..], Lengths(files[1..]));
    FirstRecordBytes(table, archive, pos, files);
    RecordTasksCons(table, files, pos);
    RecordStep(tree, table, archive, pos, files[0], rest, RecordTasks(table, files, pos), files);
    RecordableTail(table, files);
  }

  /** The bytes of the first record of files, then those of the others. */
  lemma FirstRecordBytes(table: seq<Entry>, archive: seq<byte>, pos: nat, files: seq<File>)
    requires pos <= |archive| && files != []
    requires archive[pos..] == CountedRecords(table, files, Lengths(files))
    ensures archive[pos..] == CountedRecordBytes(files[0].name, |files[0].content|, Payload(table, files[0].content))
                             + CountedRecords(table, files[1..], Lengths(files[1..]))
  {
    var rest := CountedRecords(table, files[1..], Lengths(files[1..]));
    CountedRecordsCons(table, files, []);
    assert rest + [] == rest;
    assert archive[pos..] + [] == archive[pos..];
  }

  /** Records whose first task is that of other records, and whose others are records too. */
  lemma RecordsAtCons(tree: Arena, archive: seq<byte>, pos: nat, ts: seq<Task>, files: seq<File>, ts': seq<Task>, files': seq<File>)
    requires Valid(tree) && RecordsAt(tree, archive, pos, ts, files) && ts != []
    requires |ts'| == |files'| && ts' != [] && ts'[0] == ts[0] && files'[0] == files[0]
    requires RecordsAt(tree, archive, ts[0].offsetBytes + ts[0].byteLen, ts'[1..], files'[1..])
    ensures RecordsAt(tree, archive, pos, ts', files')
  {
    assert RecordsFrom(tree, archive, pos, ts, files);
    assert RecordHere(tree, archive, pos, ts, files);
    assert RecordHere(tree, archive, pos, ts', files');
    assert RecordsFrom(tree, archive, pos, ts', files');
  }

  /** The corrected reader takes one task per record. */
  lemma {:induction false} CountedTasksOf(tree: Arena, archive: seq<byte>, pos: nat, ts: seq<Task>, files: seq<File>)
    requires Valid(tree) && pos <= |archive| && RecordsAt(tree, archive, pos, ts, files)
    ensures TasksCounted(tree, archive, pos, |files|) == Some(ts)
    decreases |ts|
  {
    if ts != [] {
      var t := ts[0];
      CountedAt(tree, archive, pos, ts, files, |files|);
      RecordsAtNext(tree, archive, pos, ts, files);
      CountedTasksOf(tree, archive, t.offsetBytes + t.byteLen, ts[1..], files[1..]);
      assert [t] + ts[1..] == ts;
    }
  }

  /** The reader as written takes one task per record while characters remain: as many as Kept(files) holds. */
  lemma {:induction false} AsWrittenTasksOf(tree: Arena, archive: seq<byte>, pos: nat, ts: seq<Task>, files: seq<File>)
    requires Valid(tree) && pos <= |archive| && RecordsAt(tree, archive, pos, ts, files)
    ensures |Kept(files)| <= |ts|
    ensures TasksAsWritten(tree, archive, pos, |AllBytes(files)|) == Some(ts[..|Kept(files)|])
    decreases |ts|
  {
    KeptProperties(files);
    if AllBytes(files) != [] {
      var t := ts[0];
      AllBytesCons(files);
      AsWrittenAt(tree, archive, pos, ts, files, |AllBytes(files)|);
      RecordsAtNext(tree, archive, pos, ts, files);
      AsWrittenTasksOf(tree, archive, t.offsetBytes + t.byteLen, ts[1..], files[1..]);
      var m := |Kept(files[1..])|;
      assert |Kept(files)| == 1 + m;
      assert [t] + ts[1..][..m] == ts[..1 + m];
    }
  }

  /** The tasks of records give back their files. */
  lemma {:induction false} FilesOfRecords(tree: Arena, archive: seq<byte>, pos: nat, ts: seq<Task>, files: seq<File>)
    requires Valid(tree) && RecordsAt(tree, archive, pos, ts, files)
    ensures Within(ts, archive) && TaskFiles(tree, archive, ts) == Some(files)
    decreases |ts|
  {
    if ts != [] {
      var t := ts[0];
      RecordsAtNext(tree, archive, pos, ts, files);
      RecordsAtFile(tree, archive, pos, ts, files);
      FilesOfRecords(tree, archive, t.offsetBytes + t.byteLen, ts[1..], files[1..]);
      assert [t] + ts[1..] == ts;
      TaskFilesCons(tree, archive, t, ts[1..]);
      ThenFilesCons(files);
    }
  }

  /** The first m records of a run of records are records themselves. */
  lemma {:induction false} RecordsAtPrefix(tree: Arena, archive: seq<byte>, pos: nat, ts: seq<Task>, files: seq<File>, m: nat)
    requires Valid(tree) && RecordsAt(tree, archive, pos, ts, files) && m <= |ts|
    ensures RecordsAt(tree, archive, pos, ts[..m], files[..m])
    decreases m
  {
    if m > 0 {
      var t := ts[0];
      RecordsAtNext(tree, archive, pos, ts, files);
      RecordsAtPrefix(tree, archive, t.offsetBytes + t.byteLen, ts[1..], files[1..], m - 1);
      assert ts[..m][1..] == ts[1..][..m - 1] && files[..m][1..] == files[1..][..m - 1];
      RecordsAtCons(tree, archive, pos, ts, files, ts[..m], files[..m]);
    }
  }

  /** The header of the archive reads back, and the tree rebuilt from it decodes every triple. */
  lemma HilosHeaderOf(files: seq<File>, tree: Arena)
    requires HilosReady(files) && Valid(tree) && HilosRebuiltFrom(tree, HilosArchive(files, HilosTree(files)))
    ensures var table := HilosTable(TreeLens(HilosTree(files)), TreeBits(HilosTree(files)));
      var records := CountedRecords(table, files, Lengths(files));
      && HilosArchive(files, HilosTree(files)) == HeaderBytes(|files|, |AllBytes(files)|, table) + records
      && ParseHeader(HilosArchive(files, HilosTree(files))) == Some((Header(|files|, |AllBytes(files)|, table), records))
      && HilosShiftsDefined(table) && DecodesAll(tree, table) && Recordable(table, files)
  {
    var ht := HilosTree(files).value;
    var table := HilosTable(TreeLens(Some(ht)), TreeBits(Some(ht)));
    HilosTableFacts(ht);
    ReadOffPrefixFree(ht, table);
    TotalUnwrapped(files);
    SizesLengths(files);
    Limits();
    ParseHeaderBytes(|files|, |AllBytes(files)|, table, CountedRecords(table, files, Lengths(files)));
    HilosTreeProperties(files);
    forall k | 0 <= k < |files| ensures InTable(table, files[k].content) {
      AllBytesElements(files, k);
      CoveredInTable(table, LeafSyms(ht), files[k].content);
    }
  }

  /** The corrected reader, from the first record on, gives back every file. */
  lemma CountedFiles(tree: Arena, table: seq<Entry>, archive: seq<byte>, start: nat, files: seq<File>)
    requires Valid(tree) && DecodesAll(tree, table) && Recordable(table, files) && start <= |archive|
    requires archive[start..] == CountedRecords(table, files, Lengths(files))
    ensures var r := TasksCounted(tree, archive, start, |files|);
      r.Some? && Within(r.value, archive) && TaskFiles(tree, archive, r.value) == Some(files)
  {
    RecordsOf(tree, table, archive, start, files);
    CountedTasksOf(tree, archive, start, RecordTasks(table, files, start), files);
    FilesOfRecords(tree, archive, start, RecordTasks(table, files, start), files);
  }

  /** The reader as written, from the first record on, gives back the files up to the last nonempty one. */
  lemma AsWrittenFiles(tree: Arena, table: seq<Entry>, archive: seq<byte>, start: nat, files: seq<File>)
    requires Valid(tree) && DecodesAll(tree, table) && Recordable(table, files) && start <= |archive|
    requires archive[start..] == CountedRecords(table, files, Lengths(files))
    ensures var r := TasksAsWritten(tree, archive, start, |AllBytes(files)|);
      r.Some? && Within(r.value, archive) && TaskFiles(tree, archive, r.value) == Some(Kept(files))
  {
    var ts := RecordTasks(table, files, start);
    var m := |Kept(files)|;
    RecordsOf(tree, table, archive, start, files);
    AsWrittenTasksOf(tree, archive, start, ts, files);
    KeptProperties(files);
    assert Kept(files) == files[..m];
    RecordsAtPrefix(tree, archive, start, ts, files, m);
    FilesOfRecords(tree, archive, start, ts[..m], files[..m]);
  }

  /** The corrected reader gives back every file, empty or not. */
  lemma HilosRoundTrip(files: seq<File>, tree: Arena)
    requires HilosReady(files) && Valid(tree) && HilosRebuiltFrom(tree, HilosArchive(files, HilosTree(files)))
    ensures HilosDecoded(tree, HilosArchive(files, HilosTree(files))) == Some(files)
  {
    var archive := HilosArchive(files, HilosTree(files));
    var table := HilosTable(TreeLens(HilosTree(files)), TreeBits(HilosTree(files)));
    var records := CountedRecords(table, files, Lengths(files));
    HilosHeaderOf(files, tree);
    var start := |archive| - |records|;
    assert archive[start..] == records;
    CountedFiles(tree, table, archive, start, files);
  }

  /** decompress.c as written gives back the files up to the last nonempty one. */
  lemma HilosAsWrittenRoundTrip(files: seq<File>, tree: Arena)
    requires HilosReady(files) && Valid(tree) && HilosRebuiltFrom(tree, HilosArchive(files, HilosTree(files)))
    ensures HilosDecodedAsWritten(tree, HilosArchive(files, HilosTree(files))) == Some(Kept(files))
  {
    var archive := HilosArchive(files, HilosTree(files));
    var table := HilosTable(TreeLens(HilosTree(files)), TreeBits(HilosTree(files)));
    var records := CountedRecords(table, files, Lengths(files));
    HilosHeaderOf(files, tree);
    var start := |archive| - |records|;
    assert archive[start..] == records;
    AsWrittenFiles(tree, table, archive, start, files);
  }

  /**
   * Kept(files) is the front of files up to and including the last
   * nonempty file; every file after it is empty.
   */
  lemma {:induction false} KeptProperties(files: seq<File>)
    ensures Kept(files) <= files
    ensures forall k :: |Kept(files)| <= k < |files| ==> files[k].content == []
    ensures Kept(files) != [] ==> Kept(files)[|Kept(files)| - 1].content != []
    decreases |files|
  {
    if AllBytes(files) == [] {
      forall k | 0 <= k < |files| ensures files[k].content == [] {
        AllBytesElements(files, k);
        FirstElement(files[k].content);
      }
    } else {
      AllBytesCons(files);
      KeptProperties(files[1..]);
      var rest := Kept(files[1..]);
      assert Kept(files) == [files[0]] + rest;
      forall k | |Kept(files)| <= k < |files| ensures files[k].content == [] {
        assert files[k] == files[1..][k - 1];
      }
      if rest == [] {
        assert AllBytes(files[1..]) == [];
      }
    }
  }

  lemma FirstElement(s: seq<byte>)
    ensures s != [] ==> s[0] in Elements(s)
  {
  }

  /** Every file comes back, as written, exactly when the directory is empty or its last file is not. */
  lemma KeptAll(files: seq<File>)
    ensures Kept(files) == files <==> files == [] || files[|files| - 1].content != []
  {
    KeptProperties(files);
  }

  /** As written, an empty file at the end of the listing is lost. */
  lemma {:induction false} TrailingEmptyFileLost(files: seq<File>, name: seq<byte>)
    ensures Kept(files + [File(name, [])]) == Kept(files)
    decreases |files|
  {
    var all := files + [File(name, [])];
    AllBytesSnoc(files, File(name, []));
    assert AllBytes(all) == AllBytes(files);
    if AllBytes(files) != [] {
      assert all[0] == files[0] && all[1..] == files[1..] + [File(name, [])];
      TrailingEmptyFileLost(files[1..], name);
    }
  }
}
