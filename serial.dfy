/**
 * The Serial variant. Its compressor (Serial/compress.c) counts the bytes
 * of every file, merges the count list into one tree, writes the table and
 * one record per file; its decompressor (Serial/decompress.c) rebuilds the
 * tree from the table and decodes the records until the running character
 * total runs out.
 */
module Serial {
  import opened Wrappers
  import opened Bits
  import opened Huffman
  import opened Frequencies
  import opened CodeTable
  import opened Buffers
  import opened DecodeTree
  import opened Decoding
  import opened Format

  // ---------------------------------------------------------------------------
  // Counting (compress.c:101-172)

  /**
   * What the loop of procesarArchivo sees of a file: it compares each byte,
   * already cut to an unsigned char, with EOF cut the same way, so the first
   * 0xFF byte ends the file for it.
   */
  function Seen(data: seq<byte>): (s: seq<byte>)
    ensures s <= data
    ensures forall i :: 0 <= i < |s| ==> s[i] != 0xFF
    ensures |s| < |data| ==> data[|s|] == 0xFF
  {
    if data == [] || data[0] == 0xFF then [] else [data[0]] + Seen(data[1..])
  }

  /** Every file cut where procesarArchivo stops reading it. */
  function Truncated(files: seq<File>): (r: seq<File>)
    ensures |r| == |files|
    ensures forall k :: 0 <= k < |files| ==> r[k] == File(files[k].name, Seen(files[k].content))
  {
    seq(|files|, k requires 0 <= k < |files| => File(files[k].name, Seen(files[k].content)))
  }

  /** A file without a 0xFF byte is seen whole. */
  lemma {:induction false} SeenWhole(data: seq<byte>)
    requires forall i :: 0 <= i < |data| ==> data[i] != 0xFF
    ensures Seen(data) == data
  {
  }

  /**
   * The read loop of `procesarArchivo` (compress.c:135-139): each byte
   * before the first 0xFF counted into the list and into `cantidad`.
   */
  method CountUntilFF(lista: seq<HTree>, data: seq<byte>) returns (counted: seq<HTree>, cantidad: nat)
    ensures counted == CountAll(lista, Seen(data)) && cantidad == |Seen(data)|
  {
    counted := lista;
    cantidad := 0;
    var i := 0;
    while i < |data| && data[i] != 0xFF
      invariant i <= |data|
      invariant forall k :: 0 <= k < i ==> data[k] != 0xFF
      invariant counted == CountAll(lista, data[..i]) && cantidad == i
    {
      assert data[..i + 1][..i] == data[..i];
      cantidad := cantidad + 1;
      counted := CountCharacter(counted, data[i]);
      i := i + 1;
    }
    assert Seen(data) == data[..i];
  }

  lemma TruncatedSnoc(files: seq<File>, i: nat)
    requires i < |files|
    ensures Truncated(files[..i + 1]) == Truncated(files[..i]) + [File(files[i].name, Seen(files[i].content))]
  {
    assert Truncated(files[..i + 1]) == Truncated(files[..i]) + [File(files[i].name, Seen(files[i].content))];
  }

  /** One more file counted onto the tallies of the files seen before it. */
  lemma TalliedStep(lista0: seq<HTree>, lista: seq<HTree>, lista': seq<HTree>, total0: nat, total: nat, total': nat,
                    counts0: seq<nat>, counts: seq<nat>, counts': seq<nat>, seen: seq<File>, f: File)
    requires lista == CountAll(lista0, AllBytes(seen)) && lista' == CountAll(lista, f.content)
    requires total == total0 + |AllBytes(seen)| && total' == total + |f.content|
    requires counts == counts0 + Lengths(seen) && counts' == counts + [|f.content|]
    ensures lista' == CountAll(lista0, AllBytes(seen + [f]))
    ensures total' == total0 + |AllBytes(seen + [f])|
    ensures counts' == counts0 + Lengths(seen + [f])
  {
    AllBytesSnoc(seen, f);
    LengthsSnoc(seen, f);
    CountAllAppend(lista0, AllBytes(seen), f.content);
  }

  /** The globals the first pass fills: the count list, `caracteres`, `totalArchivos` and `longitudTotalArchivo`. */
  class Tally {
    var lista: seq<HTree>
    /** `caracteres` with `indiceCaracter` and `capacidadArray`: one count per file. */
    var caracteres: DoublingBuffer<nat>
    var totalArchivos: nat
    var longitudTotalArchivo: nat

    /** The list is a count list whose counts add up to the total, and there is one count per file. */
    ghost predicate Valid()
      reads this, caracteres, caracteres.data
    {
      && CountList(lista) && ListWeight(lista) == longitudTotalArchivo
      && caracteres.Valid() && caracteres.size == totalArchivos
    }

    /** The initial globals, and main's allocation of 64 counts (compress.c:254). */
    constructor ()
      ensures Valid() && fresh(caracteres) && fresh(caracteres.data)
      ensures lista == [] && caracteres.Contents == [] && totalArchivos == 0 && longitudTotalArchivo == 0
    {
      lista := [];
      caracteres := new DoublingBuffer<nat>(64);
      totalArchivos := 0;
      longitudTotalArchivo := 0;
    }

    /**
     * `procesarArchivo`: counts the bytes before the first 0xFF into the
     * list, the total and `cantidad`, then stores `cantidad`, doubling the
     * array first when it is full.
     */
    method ProcesarArchivo(data: seq<byte>)
      requires Valid()
      modifies this, caracteres, caracteres.data
      ensures Valid() && caracteres == old(caracteres)
      ensures caracteres.data == old(caracteres.data) || fresh(caracteres.data)
      ensures lista == CountAll(old(lista), Seen(data))
      ensures longitudTotalArchivo == old(longitudTotalArchivo) + |Seen(data)|
      ensures caracteres.Contents == old(caracteres.Contents) + [|Seen(data)|]
      ensures totalArchivos == old(totalArchivos) + 1
    {
      var counted, cantidad := CountUntilFF(lista, data);
      CountAllProperties(lista, Seen(data));
      lista := counted;
      longitudTotalArchivo := longitudTotalArchivo + cantidad;
      caracteres.Push(cantidad);
      totalArchivos := totalArchivos + 1;
    }

    /** The globals once the files seen have been counted onto the values they started from. */
    ghost predicate Tallied(lista0: seq<HTree>, total0: nat, counts0: seq<nat>, files0: nat, seen: seq<File>)
      reads this, caracteres
    {
      && lista == CountAll(lista0, AllBytes(seen))
      && longitudTotalArchivo == total0 + |AllBytes(seen)|
      && caracteres.Contents == counts0 + Lengths(seen)
      && totalArchivos == files0 + |seen|
    }

    /** `procesarDirectorio`: every file in turn. */
    method ProcesarDirectorio(files: seq<File>)
      requires Valid()
      modifies this, caracteres, caracteres.data
      ensures Valid() && caracteres == old(caracteres)
      ensures caracteres.data == old(caracteres.data) || fresh(caracteres.data)
      ensures lista == CountAll(old(lista), AllBytes(Truncated(files)))
      ensures longitudTotalArchivo == old(longitudTotalArchivo) + |AllBytes(Truncated(files))|
      ensures caracteres.Contents == old(caracteres.Contents) + Lengths(Truncated(files))
      ensures totalArchivos == old(totalArchivos) + |files|
    {
      ghost var lista0, total0, counts0, files0 := lista, longitudTotalArchivo, caracteres.Contents, totalArchivos;
      var i := 0;
      ghost var seen: seq<File> := [];
      assert Truncated(files[..0]) == [];
      while i < |files|
        invariant i <= |files| && Valid() && caracteres == old(caracteres)
        invariant caracteres.data == old(caracteres.data) || fresh(caracteres.data)
        invariant seen == Truncated(files[..i]) && |seen| == i
        invariant Tallied(lista0, total0, counts0, files0, seen)
      {
        var f := File(files[i].name, Seen(files[i].content));
        TruncatedSnoc(files, i);
        ghost var lista1, total1, counts1 := lista, longitudTotalArchivo, caracteres.Contents;
        ProcesarArchivo(files[i].content);
        TalliedStep(lista0, lista1, lista, total0, total1, longitudTotalArchivo, counts0, counts1, caracteres.Contents, seen, f);
        seen := seen + [f];
        i := i + 1;
      }
      assert files[..i] == files;
    }
  }

  // ---------------------------------------------------------------------------
  // Records (compress.c:174-236)

  /**
   * The read loop of `comprimirArchivo`: every byte's code, from bit
   * cantidadBits - 1 down to bit 0, shifted into `byte`, which is written
   * once it holds eight bits; a byte without an entry is skipped.
   */
  method ShiftCodes(table: seq<Entry>, data: seq<byte>) returns (out: seq<byte>, acc: nat, cantidadBits: nat)
    ensures Accumulating(out, acc, cantidadBits, Encode(TableCodes(table), data))
  {
    ghost var codes := TableCodes(table);
    acc, cantidadBits := 0, 0;
    out := [];
    ghost var e: seq<bool> := [];
    AccumulatingStart();
    var i := 0;
    while i < |data|
      invariant i <= |data|
      invariant Accumulating(out, acc, cantidadBits, e)
      invariant e == Encode(codes, data[..i])
    {
      var node := FindSymbol(table, data[i]);
      assert data[..i + 1][..i] == data[..i];
      if node >= 0 {
        out, acc, cantidadBits := EmitCode(out, acc, cantidadBits, table[node], e);
      } else {
        assert e + [] == e;
      }
      e := e + TableCode(table, data[i]);
      i := i + 1;
    }
    assert data[..i] == data;
  }

  /**
   * `comprimirArchivo`: the codes of the file's bytes, then the last
   * partial byte shifted up to the top bits and written. `payload` is what
   * it writes.
   */
  method ComprimirArchivo(table: seq<Entry>, data: seq<byte>) returns (payload: seq<byte>)
    ensures payload == Payload(table, data)
  {
    var acc, cantidadBits;
    payload, acc, cantidadBits := ShiftCodes(table, data);
    Flush(payload, acc, cantidadBits, Encode(TableCodes(table), data));
    if cantidadBits > 0 {
      acc := ShiftUp(acc, cantidadBits);
      payload := payload + [acc];
    }
  }

  /** One step of compress.c:189-197: the bit shifted into acc, and acc written out once it holds eight bits. */
  method ShiftBit(out: seq<byte>, acc: nat, cantidadBits: nat, bit: bool, ghost emitted: seq<bool>)
    returns (out': seq<byte>, acc': nat, cantidadBits': nat)
    requires Accumulating(out, acc, cantidadBits, emitted)
    ensures Accumulating(out', acc', cantidadBits', emitted + [bit])
  {
    PushBit(out, acc, cantidadBits, emitted, bit);
    out', acc', cantidadBits' := out, 2 * acc + (if bit then 1 else 0), cantidadBits + 1;
    if cantidadBits' == 8 {
      out' := out' + [acc'];
      acc' := 0;
      cantidadBits' := 0;
    }
  }

  /** compress.c:188-198: the bits of one code shifted in and written a byte at a time. */
  method EmitCode(out: seq<byte>, acc: nat, cantidadBits: nat, entry: Entry, ghost e: seq<bool>)
    returns (out': seq<byte>, acc': nat, cantidadBits': nat)
    requires Accumulating(out, acc, cantidadBits, e)
    ensures Accumulating(out', acc', cantidadBits', e + EntryCode(entry))
  {
    ghost var code := EntryCode(entry);
    ghost var emitted := e;
    out', acc', cantidadBits' := out, acc, cantidadBits;
    var k: int := entry.nBits - 1;
    assert e + code[..0] == e;
    while k >= 0
      invariant -1 <= k < entry.nBits
      invariant Accumulating(out', acc', cantidadBits', emitted)
      invariant emitted == e + code[..entry.nBits - 1 - k]
    {
      ghost var j := entry.nBits - 1 - k;
      CodeBitsAt(entry.bits, entry.nBits, j);
      var bit := BitAt(entry.bits, k);
      out', acc', cantidadBits' := ShiftBit(out', acc', cantidadBits', bit, emitted);
      TakeSnoc(code, j);
      emitted := emitted + [bit];
      k := k - 1;
    }
    assert code[..entry.nBits] == code;
  }

  /**
   * `comprimirDirectorio`: for each file the name length, the name, the
   * count stored for it by the first pass, then its payload, with the
   * accumulator reset per file.
   */
  method ComprimirDirectorio(table: seq<Entry>, files: seq<File>, caracteres: seq<nat>) returns (records: seq<byte>)
    requires |caracteres| == |files|
    ensures records == CountedRecords(table, files, caracteres)
  {
    records := [];
    var i := 0;
    while i < |files|
      invariant i <= |files|
      invariant records == CountedRecords(table, files[..i], caracteres[..i])
    {
      var payload := ComprimirArchivo(table, files[i].content);
      CountedRecordsSnoc(table, files[..i], caracteres[..i], files[i], caracteres[i]);
      assert files[..i + 1] == files[..i] + [files[i]];
      assert caracteres[..i + 1] == caracteres[..i] + [caracteres[i]];
      records := records + (LE(|files[i].name|, 4) + files[i].name + LE(caracteres[i], 4) + payload);
      i := i + 1;
    }
    assert files[..i] == files && caracteres[..i] == caracteres;
  }

  /** The archive the compressor writes: the counts are those of the bytes before each file's first 0xFF. */
  function SerialArchiveAsWritten(files: seq<File>, ht: HTree): seq<byte>
  {
    HeaderBytes(|files|, |AllBytes(Truncated(files))|, TreeTable(ht))
      + CountedRecords(TreeTable(ht), files, Lengths(Truncated(files)))
  }

  /** The archive with every byte of every file counted, as the format intends. */
  function SerialArchive(files: seq<File>, ht: HTree): seq<byte>
  {
    HeaderBytes(|files|, |AllBytes(files)|, TreeTable(ht)) + CountedRecords(TreeTable(ht), files, Lengths(files))
  }

  /** For files without a 0xFF byte the two archives are the same. */
  lemma AsWrittenWithoutFF(files: seq<File>, ht: HTree)
    requires forall k, i :: 0 <= k < |files| && 0 <= i < |files[k].content| ==> files[k].content[i] != 0xFF
    ensures SerialArchiveAsWritten(files, ht) == SerialArchive(files, ht)
  {
    forall k | 0 <= k < |files| ensures Truncated(files)[k] == files[k] {
      SeenWhole(files[k].content);
    }
    assert Truncated(files) == files;
  }

  /**
   * compress.c:254-271: the first pass, then the merge loop over the list
   * it leaves, which is sorted by symbol.
   */
  method BuildTree(files: seq<File>) returns (arbol: seq<HTree>, totalArchivos: nat, longitud: nat, caracteres: seq<nat>)
    ensures arbol == Merged(CountAll([], AllBytes(Truncated(files))))
    ensures totalArchivos == |files| && longitud == |AllBytes(Truncated(files))|
    ensures caracteres == Lengths(Truncated(files))
  {
    var tally := new Tally();
    tally.ProcesarDirectorio(files);
    arbol := MergeLoop(tally.lista);
    totalArchivos := tally.totalArchivos;
    longitud := tally.longitudTotalArchivo;
    caracteres := tally.caracteres.data[..tally.caracteres.size];
  }

  /**
   * compress.c:240-300: the tree, the table read off it, the header, then
   * the records. An empty list leaves the tree NULL, which
   * `crearTablaCodificacion` dereferences, and codes longer than 31 bits
   * overflow the `int` it builds them in: both are None here.
   */
  method Compress(files: seq<File>) returns (archive: Option<seq<byte>>, ht: HTree)
    ensures archive.None? <==> AllBytes(Truncated(files)) == [] || Height(ht) > 31
    ensures archive.Some? ==> archive.value == SerialArchiveAsWritten(files, ht)
    ensures AllBytes(Truncated(files)) != [] ==>
      && [ht] == Merged(CountAll([], AllBytes(Truncated(files))))
      && LeafSyms(ht) == Elements(AllBytes(Truncated(files)))
      && WellWeighted(ht) && ht.weight == |AllBytes(Truncated(files))|
  {
    var arbol, totalArchivos, longitud, caracteres := BuildTree(files);
    CountedTree(AllBytes(Truncated(files)));
    if arbol == [] {
      ht := Leaf(0, 0);
      archive := None;
      return;
    }
    var root := arbol[0];
    ht := root;
    assert arbol == [root] && arbol[1..] == [];
    if Height(root) > 31 {
      archive := None;
      return;
    }
    var table := new Table();
    table.CreateTable(root, 0, 0, []);
    var header := WriteHeader(totalArchivos, longitud, table.entries);
    var records := ComprimirDirectorio(table.entries, files, caracteres);
    archive := Some(header + records);
  }

  // ---------------------------------------------------------------------------
  // The decompressor (decompress.c)

  /**
   * createTree's `1 << (nBits - 1)` on an `int`, with nBits a signed
   * `char`, is defined only for lengths 1 to 31.
   */
  predicate ShiftsDefined(entries: seq<Entry>)
  {
    forall j :: 0 <= j < |entries| ==> 1 <= entries[j].nBits <= 31
  }

  /**
   * decompress.c:46-104 from a record head on: the name (into the
   * 1024-byte `filePath`), the unsigned count, then the do-while over the
   * payload; the running total `characters` falls with every symbol, and
   * the loop stops after the record that brings it to zero or below, or
   * reads the next record head from the byte after the last one read.
   */
  function RecordsAsWritten(tree: Arena, data: seq<byte>, characters: int): Option<seq<File>>
    requires Valid(tree)
    decreases |data|, 1
  {
    match ParseCountedHead(data, 1024)
    case None => None
    case Some((name, cantBook, payload)) => RecordAsWritten(tree, name, cantBook, payload, characters)
  }

  /** One record's payload decoded, then the records after it while characters remain. */
  function RecordAsWritten(tree: Arena, name: seq<byte>, cantBook: nat, payload: seq<byte>, characters: int): Option<seq<File>>
    requires Valid(tree) && cantBook < Wrap32
    decreases |payload|, 0
  {
    match SerialRun(tree, 0, Unpack(payload), cantBook)
    case None => None
    case Some(d) =>
      var left := characters - |d.out|;
      if left <= 0 then Some([File(name, d.out)])
      else ThenFiles([File(name, d.out)], RecordsAsWritten(tree, payload[CeilDiv8(d.used)..], left))
  }

  /** The files decompress.c recreates from an archive, decoding with `tree`. */
  function SerialDecodedAsWritten(tree: Arena, archive: seq<byte>): Option<seq<File>>
    requires Valid(tree)
  {
    match ParseHeader(archive)
    case None => None
    case Some((h, rest)) =>
      if !ShiftsDefined(h.entries) then None else RecordsAsWritten(tree, rest, h.totalCharacters)
  }

  /**
   * The corrected reader: exactly as many records as the header's file
   * count, a record with a zero count taking no payload bits.
   */
  function SerialRecords(tree: Arena, data: seq<byte>, n: int): Option<seq<File>>
    requires Valid(tree)
    decreases if n < 0 then 0 else n, 1
  {
    if n <= 0 then Some([])
    else
      match ParseCountedHead(data, 1024)
      case None => None
      case Some((name, cantBook, payload)) => SerialRecord(tree, name, cantBook, payload, n)
  }

  /** One record's payload decoded, then the n - 1 records after it. */
  function SerialRecord(tree: Arena, name: seq<byte>, cantBook: nat, payload: seq<byte>, n: int): Option<seq<File>>
    requires Valid(tree) && cantBook < Wrap32 && n >= 1
    decreases n, 0
  {
    match SerialRecordRun(tree, Unpack(payload), cantBook)
    case None => None
    case Some(d) => ThenFiles([File(name, d.out)], SerialRecords(tree, payload[CeilDiv8(d.used)..], n - 1))
  }

  function SerialDecoded(tree: Arena, archive: seq<byte>): Option<seq<File>>
    requires Valid(tree)
  {
    match ParseHeader(archive)
    case None => None
    case Some((h, rest)) =>
      if !ShiftsDefined(h.entries) then None else SerialRecords(tree, rest, h.fileCount)
  }

  /** The tree rebuilt from the archive's table decodes every triple whenever the codes allow it. */
  predicate SerialRebuiltFrom(tree: Arena, archive: seq<byte>)
    requires Valid(tree)
  {
    match ParseHeader(archive)
    case None => true
    case Some((h, _)) => ShiftsDefined(h.entries) && PrefixFree(Codes(h.entries)) ==> DecodesAll(tree, h.entries)
  }

  /** A record read as written, once its payload has been decoded. */
  lemma RecordOnRun(tree: Arena, name: seq<byte>, cantBook: nat, payload: seq<byte>, characters: int, d: Decoded)
    requires Valid(tree) && cantBook < Wrap32
    requires SerialRun(tree, 0, Unpack(payload), cantBook) == Some(d)
    ensures RecordAsWritten(tree, name, cantBook, payload, characters) ==
      if characters - |d.out| <= 0 then Some([File(name, d.out)])
      else ThenFiles([File(name, d.out)], RecordsAsWritten(tree, payload[CeilDiv8(d.used)..], characters - |d.out|))
  {
  }

  /** One record of RecordsAsWritten, once its payload has been decoded. */
  lemma {:induction false} AsWrittenStep(tree: Arena, files: seq<File>, name: seq<byte>, cantBook: nat,
                                         payload: seq<byte>, characters: int, d: Decoded,
                                         file: File, next: seq<byte>, left: int)
    requires Valid(tree) && cantBook < Wrap32
    requires SerialRun(tree, 0, Unpack(payload), cantBook) == Some(d)
    requires file == File(name, d.out) && next == payload[CeilDiv8(d.used)..] && left == characters - |d.out|
    ensures left <= 0 ==> ThenFiles(files, RecordAsWritten(tree, name, cantBook, payload, characters)) == Some(files + [file])
    ensures left > 0 ==> ThenFiles(files, RecordAsWritten(tree, name, cantBook, payload, characters))
                         == ThenFiles(files + [file], RecordsAsWritten(tree, next, left))
  {
    RecordOnRun(tree, name, cantBook, payload, characters, d);
    if left > 0 {
      var rest := RecordsAsWritten(tree, next, left);
      if rest.Some? {
        assert files + ([file] + rest.value) == files + [file] + rest.value;
      }
    }
  }

  /** The reader's state after one more record, whose payload has been decoded to d. */
  lemma RecordsLoopStep(tree: Arena, data: seq<byte>, characters: int, files: seq<File>, pos: seq<byte>, left: int,
                        name: seq<byte>, cantBook: nat, payload: seq<byte>, d: Decoded,
                        file: File, next: seq<byte>, left': int)
    requires Valid(tree) && cantBook < Wrap32
    requires RecordsAsWritten(tree, data, characters) == ThenFiles(files, RecordsAsWritten(tree, pos, left))
    requires ParseCountedHead(pos, 1024) == Some((name, cantBook, payload))
    requires SerialRun(tree, 0, Unpack(payload), cantBook) == Some(d)
    requires file == File(name, d.out) && next == payload[CeilDiv8(d.used)..] && left' == left - |d.out|
    ensures left' <= 0 ==> RecordsAsWritten(tree, data, characters) == Some(files + [file])
    ensures left' > 0 ==> RecordsAsWritten(tree, data, characters) == ThenFiles(files + [file], RecordsAsWritten(tree, next, left'))
  {
    assert RecordsAsWritten(tree, pos, left) == RecordAsWritten(tree, name, cantBook, payload, left);
    AsWrittenStep(tree, files, name, cantBook, payload, left, d, file, next, left');
  }

  /** decompress.c:46-104: records decoded one after the other until the character total runs out. */
  method DecompressRecords(tree: Arena, data: seq<byte>, characters: int) returns (r: Option<seq<File>>)
    requires Valid(tree)
    ensures r == RecordsAsWritten(tree, data, characters)
  {
    var pos := data;
    var left := characters;
    var files: seq<File> := [];
    assert ThenFiles([], RecordsAsWritten(tree, pos, left)) == RecordsAsWritten(tree, pos, left) by {
      if RecordsAsWritten(tree, pos, left).Some? {
        assert [] + RecordsAsWritten(tree, pos, left).value == RecordsAsWritten(tree, pos, left).value;
      }
    }
    while true
      invariant RecordsAsWritten(tree, data, characters) == ThenFiles(files, RecordsAsWritten(tree, pos, left))
      decreases |pos|
    {
      var head := ParseCountedHead(pos, 1024);
      if head.None? {
        return None;
      }
      var name := head.value.0;
      var cantBook := head.value.1;
      var payload := head.value.2;
      var segment, charactersLeft := SerialPayload(tree, payload, 0, cantBook, left);
      assert payload[0..] == payload;
      if segment.None? {
        return None;
      }
      ghost var d := SerialRun(tree, 0, Unpack(payload), cantBook).value;
      var file := File(name, segment.value.buffer);
      var next := payload[segment.value.byteLen..];
      RecordsLoopStep(tree, data, characters, files, pos, left, name, cantBook, payload, d, file, next, charactersLeft);
      if charactersLeft <= 0 {
        return Some(files + [file]);
      }
      files, pos, left := files + [file], next, charactersLeft;
    }
  }

  /**
   * `main` and `decompress`: the header, the tree hung from the triples
   * (`createTree`), then the records. The rebuilt tree is returned beside
   * the files, so that the contract can say what it decodes.
   */
  method Decompress(archive: seq<byte>) returns (r: Option<seq<File>>, tree: Arena)
    ensures Valid(tree) && SerialRebuiltFrom(tree, archive)
    ensures r == SerialDecodedAsWritten(tree, archive)
  {
    var parsed := ParseHeader(archive);
    if parsed.None? || !ShiftsDefined(parsed.value.0.entries) {
      tree := EmptyTree();
      r := None;
      return;
    }
    var header := parsed.value.0;
    var root := CreateTree(header.entries);
    tree := root;
    r := DecompressRecords(root, parsed.value.1, header.totalCharacters);
  }

  // ---------------------------------------------------------------------------
  // The round trips

  /**
   * What the round trips need of the files and of the tree: two leaves or
   * more, codes that fit the `int` they are built in, counts and names
   * that fit the header's fields, `filePath` and the unsigned count, and a
   * leaf for every byte.
   */
  predicate SerialReady(files: seq<File>, ht: HTree)
  {
    && ht.Node? && Height(ht) <= 31 && LeafCount(ht) < Int32Limit
    && |files| < Int32Limit && |AllBytes(files)| < Int64Limit
    && forall k :: 0 <= k < |files| ==>
         && |files[k].name| < 1024 && |files[k].content| < Wrap32
         && Elements(files[k].content) <= LeafSyms(ht)
  }

  /** A payload, whatever follows it, decodes to its bytes and takes exactly its own bytes. */
  lemma PayloadDecodes(tree: Arena, table: seq<Entry>, data: seq<byte>, tail: seq<byte>)
    requires Valid(tree) && DecodesAll(tree, table) && |data| < Wrap32 && InTable(table, data)
    ensures var d := Decoded(data, |Encode(TableCodes(table), data)|);
      && SerialRecordRun(tree, Unpack(Payload(table, data) + tail), |data|) == Some(d)
      && (Payload(table, data) + tail)[CeilDiv8(d.used)..] == tail
  {
    var codes := TableCodes(table);
    var e := Encode(codes, data);
    DecodesEachByte(tree, table, data);
    PayloadBits(table, data, tail);
    SerialRecordRunEncode(tree, codes, data, Zeros(8 * CeilDiv8(|e|) - |e|) + Unpack(tail));
  }

  /** A record's fields read back, whatever follows its payload. */
  lemma RecordHead(name: seq<byte>, count: nat, payload: seq<byte>, rest: seq<byte>)
    requires |name| < 1024 && count < Wrap32
    ensures CountedRecordBytes(name, count, payload) + rest == CountedRecordBytes(name, count, payload + rest)
    ensures ParseCountedHead(CountedRecordBytes(name, count, payload) + rest, 1024) == Some((name, count, payload + rest))
  {
    Limits();
    ParseCountedHeadBytes(name, count, payload + rest, 1024);
  }

  /** One record, read by the corrected reader, gives back its file. */
  lemma SerialRecordStep(tree: Arena, table: seq<Entry>, f: File, tail: seq<byte>, n: int)
    requires Valid(tree) && DecodesAll(tree, table) && n >= 1
    requires |f.name| < 1024 && |f.content| < Wrap32 && InTable(table, f.content)
    ensures SerialRecords(tree, CountedRecordBytes(f.name, |f.content|, Payload(table, f.content)) + tail, n)
         == ThenFiles([f], SerialRecords(tree, tail, n - 1))
  {
    RecordHead(f.name, |f.content|, Payload(table, f.content), tail);
    PayloadDecodes(tree, table, f.content, tail);
  }

  /** A record read as written, once its head has been read and its payload decoded. */
  lemma AsWrittenHead(tree: Arena, data: seq<byte>, name: seq<byte>, cantBook: nat, payload: seq<byte>, total: int,
                      d: Decoded, tail: seq<byte>, f: File)
    requires Valid(tree) && cantBook < Wrap32
    requires ParseCountedHead(data, 1024) == Some((name, cantBook, payload))
    requires SerialRun(tree, 0, Unpack(payload), cantBook) == Some(d)
    requires payload[CeilDiv8(d.used)..] == tail && f == File(name, d.out)
    ensures RecordsAsWritten(tree, data, total) ==
      if total - |f.content| <= 0 then Some([f])
      else ThenFiles([f], RecordsAsWritten(tree, tail, total - |f.content|))
  {
    HeadRead(tree, data, name, cantBook, payload, total);
    RecordOnRun(tree, name, cantBook, payload, total, d);
  }

  /** Reading records as written starts with the record whose head reads. */
  lemma HeadRead(tree: Arena, data: seq<byte>, name: seq<byte>, cantBook: nat, payload: seq<byte>, total: int)
    requires Valid(tree) && cantBook < Wrap32
    requires ParseCountedHead(data, 1024) == Some((name, cantBook, payload))
    ensures RecordsAsWritten(tree, data, total) == RecordAsWritten(tree, name, cantBook, payload, total)
  {
  }

  /** One nonempty record, read as written, gives back its file and takes its count off the total. */
  lemma AsWrittenRecordStep(tree: Arena, table: seq<Entry>, f: File, tail: seq<byte>, total: int)
    requires Valid(tree) && DecodesAll(tree, table)
    requires |f.name| < 1024 && 1 <= |f.content| < Wrap32 && InTable(table, f.content)
    ensures RecordsAsWritten(tree, CountedRecordBytes(f.name, |f.content|, Payload(table, f.content)) + tail, total)
         == if total - |f.content| <= 0 then Some([f])
            else ThenFiles([f], RecordsAsWritten(tree, tail, total - |f.content|))
  {
    var count: nat := |f.content|;
    var payload := Payload(table, f.content) + tail;
    RecordHead(f.name, count, Payload(table, f.content), tail);
    PayloadDecodes(tree, table, f.content, tail);
    var d := Decoded(f.content, |Encode(TableCodes(table), f.content)|);
    var data := CountedRecordBytes(f.name, count, Payload(table, f.content)) + tail;
    assert payload[CeilDiv8(d.used)..] == tail;
    assert File(f.name, d.out) == f;
    AsWrittenHead(tree, data, f.name, count, payload, total, d, tail, f);
  }

  /** The corrected reader gives back the files whose records it reads. */
  lemma {:induction false} SerialRecordsOf(tree: Arena, table: seq<Entry>, files: seq<File>, rest: seq<byte>)
    requires Valid(tree) && DecodesAll(tree, table)
    requires forall k :: 0 <= k < |files| ==>
      |files[k].name| < 1024 && |files[k].content| < Wrap32 && InTable(table, files[k].content)
    ensures SerialRecords(tree, CountedRecords(table, files, Lengths(files)) + rest, |files|) == Some(files)
  {
    if files != [] {
      var f := files[0];
      var tail := CountedRecords(table, files[1..], Lengths(files[1..])) + rest;
      CountedRecordsCons(table, files, rest);
      SerialRecordStep(tree, table, f, tail, |files|);
      SerialRecordsOf(tree, table, files[1..], rest);
      ThenFilesCons(files);
    }
  }

  /**
   * As written, the reader gives back nonempty files whose records it
   * reads, stopping after the last one whatever follows.
   */
  lemma {:induction false} AsWrittenRecordsOf(tree: Arena, table: seq<Entry>, files: seq<File>, extra: seq<byte>)
    requires Valid(tree) && DecodesAll(tree, table) && files != [] && NonemptyRecordable(table, files)
    ensures RecordsAsWritten(tree, CountedRecords(table, files, Lengths(files)) + extra, |AllBytes(files)|) == Some(files)
  {
    var rest := files[1..];
    NonemptyRecordableCons(table, files);
    if rest != [] {
      AsWrittenRecordsOf(tree, table, rest, extra);
      NonemptyRecordableCons(table, rest);
      AllBytesCons(rest);
    }
    AsWrittenFirst(tree, table, files, extra);
  }

  /** The records of files, read as written, once those of all but the first have been. */
  lemma AsWrittenFirst(tree: Arena, table: seq<Entry>, files: seq<File>, extra: seq<byte>)
    requires Valid(tree) && DecodesAll(tree, table) && files != []
    requires |files[0].name| < 1024 && 1 <= |files[0].content| < Wrap32 && InTable(table, files[0].content)
    requires var rest := files[1..];
      rest != [] ==> (|AllBytes(rest)| > 0
        && RecordsAsWritten(tree, CountedRecords(table, rest, Lengths(rest)) + extra, |AllBytes(rest)|) == Some(rest))
    ensures RecordsAsWritten(tree, CountedRecords(table, files, Lengths(files)) + extra, |AllBytes(files)|) == Some(files)
  {
    var f, rest := files[0], files[1..];
    var tail := CountedRecords(table, rest, Lengths(rest)) + extra;
    var total := |AllBytes(files)|;
    CountedRecordsCons(table, files, extra);
    AsWrittenRecordStep(tree, table, f, tail, total);
    AllBytesCons(files);
    AsWrittenCons(tree, CountedRecords(table, files, Lengths(files)) + extra, tail, files, total);
  }

  /** Files whose records the reader as written can read back: short names, nonempty contents in the table. */
  ghost predicate NonemptyRecordable(table: seq<Entry>, files: seq<File>)
  {
    forall k :: 0 <= k < |files| ==>
      |files[k].name| < 1024 && 1 <= |files[k].content| < Wrap32 && InTable(table, files[k].content)
  }

  lemma NonemptyRecordableCons(table: seq<Entry>, files: seq<File>)
    requires files != [] && NonemptyRecordable(table, files)
    ensures NonemptyRecordable(table, files[1..])
    ensures |files[0].name| < 1024 && 1 <= |files[0].content| < Wrap32 && InTable(table, files[0].content)
  {
    forall k | 0 <= k < |files| - 1
      ensures |files[1..][k].name| < 1024 && 1 <= |files[1..][k].content| < Wrap32 && InTable(table, files[1..][k].content)
    {
      assert files[1..][k] == files[k + 1];
    }
  }

  /** The records of f and then of rest, read as written, once the first one has been read. */
  lemma AsWrittenCons(tree: Arena, data: seq<byte>, tail: seq<byte>, files: seq<File>, total: int)
    requires Valid(tree) && files != [] && total == |files[0].content| + |AllBytes(files[1..])|
    requires RecordsAsWritten(tree, data, total) ==
      if total - |files[0].content| <= 0 then Some([files[0]])
      else ThenFiles([files[0]], RecordsAsWritten(tree, tail, total - |files[0].content|))
    requires files[1..] != [] ==> |AllBytes(files[1..])| > 0 && RecordsAsWritten(tree, tail, |AllBytes(files[1..])|) == Some(files[1..])
    ensures RecordsAsWritten(tree, data, total) == Some(files)
  {
    if files[1..] == [] {
      assert files == [files[0]];
    } else {
      assert [files[0]] + files[1..] == files;
    }
  }

  /** The header of an archive for files, read back, and the facts about its table the readers need. */
  lemma HeaderOf(files: seq<File>, ht: HTree, total: nat, records: seq<byte>, tree: Arena)
    requires SerialReady(files, ht) && total < Int64Limit && Valid(tree)
    requires var a := HeaderBytes(|files|, total, TreeTable(ht)) + records; SerialRebuiltFrom(tree, a)
    ensures ParseHeader(HeaderBytes(|files|, total, TreeTable(ht)) + records)
         == Some((Header(|files|, total, TreeTable(ht)), records))
    ensures ShiftsDefined(TreeTable(ht)) && DecodesAll(tree, TreeTable(ht))
    ensures forall k :: 0 <= k < |files| ==> InTable(TreeTable(ht), files[k].content)
  {
    var table := TreeTable(ht);
    TreeTableFacts(ht);
    TreeTableProperties(ht);
    ParseHeaderBytes(|files|, total, table, records);
    forall k | 0 <= k < |files| ensures InTable(table, files[k].content) {
      CoveredInTable(table, LeafSyms(ht), files[k].content);
    }
  }

  /**
   * The corrected round trip: every file comes back, empty or not, and
   * whatever bytes it holds.
   */
  lemma SerialRoundTrip(files: seq<File>, ht: HTree, tree: Arena)
    requires SerialReady(files, ht)
    requires Valid(tree) && SerialRebuiltFrom(tree, SerialArchive(files, ht))
    ensures SerialDecoded(tree, SerialArchive(files, ht)) == Some(files)
  {
    var records := CountedRecords(TreeTable(ht), files, Lengths(files));
    HeaderOf(files, ht, |AllBytes(files)|, records, tree);
    SerialRecordsOf(tree, TreeTable(ht), files, []);
    assert records + [] == records;
  }

  /**
   * The round trip as written holds for a nonempty directory of nonempty
   * files free of 0xFF bytes.
   */
  lemma AsWrittenRoundTrip(files: seq<File>, ht: HTree, tree: Arena)
    requires SerialReady(files, ht) && files != []
    requires forall k :: 0 <= k < |files| ==> |files[k].content| >= 1
    requires forall k, i :: 0 <= k < |files| && 0 <= i < |files[k].content| ==> files[k].content[i] != 0xFF
    requires Valid(tree) && SerialRebuiltFrom(tree, SerialArchiveAsWritten(files, ht))
    ensures SerialDecodedAsWritten(tree, SerialArchiveAsWritten(files, ht)) == Some(files)
  {
    AsWrittenWithoutFF(files, ht);
    var records := CountedRecords(TreeTable(ht), files, Lengths(files));
    HeaderOf(files, ht, |AllBytes(files)|, records, tree);
    AsWrittenRecordsOf(tree, TreeTable(ht), files, []);
    assert records + [] == records;
  }

  /**
   * A trailing empty file is lost: the reader stops as soon as the
   * character total reaches zero, before the empty file's record.
   */
  lemma TrailingEmptyFileLost(files: seq<File>, name: seq<byte>, ht: HTree, tree: Arena)
    requires SerialReady(files + [File(name, [])], ht) && files != []
    requires forall k :: 0 <= k < |files| ==> |files[k].content| >= 1
    requires forall k, i :: 0 <= k < |files| && 0 <= i < |files[k].content| ==> files[k].content[i] != 0xFF
    requires Valid(tree) && SerialRebuiltFrom(tree, SerialArchiveAsWritten(files + [File(name, [])], ht))
    ensures SerialDecodedAsWritten(tree, SerialArchiveAsWritten(files + [File(name, [])], ht)) == Some(files)
  {
    var empty := File(name, []);
    var all := files + [empty];
    var table := TreeTable(ht);
    AsWrittenWithoutFF(all, ht);
    var records := CountedRecords(table, all, Lengths(all));
    HeaderOf(all, ht, |AllBytes(all)|, records, tree);
    RecordablePrefix(table, files, all);
    TrailerIgnored(tree, table, files, name);
  }

  /** The files before the last of all, when they are nonempty and all of them are in the table. */
  lemma RecordablePrefix(table: seq<Entry>, files: seq<File>, all: seq<File>)
    requires |all| == |files| + 1 && all[..|files|] == files
    requires forall k :: 0 <= k < |files| ==> |files[k].content| >= 1
    requires forall k :: 0 <= k < |all| ==> |all[k].name| < 1024 && |all[k].content| < Wrap32 && InTable(table, all[k].content)
    ensures NonemptyRecordable(table, files)
  {
    forall k | 0 <= k < |files|
      ensures |files[k].name| < 1024 && 1 <= |files[k].content| < Wrap32 && InTable(table, files[k].content)
    {
      assert files[k] == all[k];
    }
  }

  /** The reader as written stops before the record of an empty last file. */
  lemma TrailerIgnored(tree: Arena, table: seq<Entry>, files: seq<File>, name: seq<byte>)
    requires Valid(tree) && DecodesAll(tree, table) && files != [] && NonemptyRecordable(table, files)
    ensures var all := files + [File(name, [])];
      RecordsAsWritten(tree, CountedRecords(table, all, Lengths(all)), |AllBytes(all)|) == Some(files)
  {
    var empty := File(name, []);
    AllBytesSnoc(files, empty);
    assert AllBytes(files + [empty]) == AllBytes(files);
    LengthsSnoc(files, empty);
    CountedRecordsSnoc(table, files, Lengths(files), empty, 0);
    AsWrittenRecordsOf(tree, table, files, CountedRecordBytes(name, 0, Payload(table, [])));
  }

  /**
   * A first file with a 0xFF byte after its first byte does not come back:
   * its record carries the count of the bytes before the 0xFF, so the
   * reader emits fewer bytes than the file holds. The tree is one for the
   * bytes the compressor counts, as Compress builds it: the 0xFF has no
   * entry and the compressor skips it.
   */
  lemma FFCutsFile(files: seq<File>, ht: HTree, tree: Arena)
    requires SerialReady(Truncated(files), ht) && files != []
    requires 1 <= |Seen(files[0].content)| < |files[0].content|
    requires Valid(tree) && SerialRebuiltFrom(tree, SerialArchiveAsWritten(files, ht))
    ensures SerialDecodedAsWritten(tree, SerialArchiveAsWritten(files, ht)) != Some(files)
  {
    var table := TreeTable(ht);
    var seen := Truncated(files);
    var f := files[0];
    var counts := Lengths(seen);
    var records := CountedRecords(table, files, counts);
    var total := |AllBytes(seen)|;
    HeaderOf(seen, ht, total, records, tree);
    assert counts[0] == |Seen(f.content)| && seen[0].name == f.name;
    FirstRecordCut(tree, table, files, counts, total);
  }

  /**
   * What Compress promises of its tree meets what the readers need of the
   * counted files, once the directory fits the header's and the reader's
   * fields.
   */
  lemma CompressedReady(files: seq<File>, ht: HTree)
    requires ht.Node? && Height(ht) <= 31 && LeafCount(ht) < Int32Limit
    requires LeafSyms(ht) == Elements(AllBytes(Truncated(files)))
    requires |files| < Int32Limit && |AllBytes(Truncated(files))| < Int64Limit
    requires forall k :: 0 <= k < |files| ==> |files[k].name| < 1024 && |files[k].content| < Wrap32
    ensures SerialReady(Truncated(files), ht)
  {
    var seen := Truncated(files);
    forall k | 0 <= k < |seen|
      ensures |seen[k].name| < 1024 && |seen[k].content| < Wrap32 && Elements(seen[k].content) <= LeafSyms(ht)
    {
      AllBytesElements(seen, k);
    }
  }

  /**
   * An empty first file followed by a file whose name starts with a nonzero
   * byte does not come back: the zero-count record reads one byte of the
   * next record's head, so that head is read from the wrong place.
   */
  lemma EmptyFirstFileLost(files: seq<File>, ht: HTree, tree: Arena)
    requires SerialReady(Truncated(files), ht) && |files| >= 2 && files[0].content == []
    requires files[1].name != [] && files[1].name[0] != 0
    requires 0 < |AllBytes(Truncated(files))| < Int64Limit
    requires Valid(tree) && SerialRebuiltFrom(tree, SerialArchiveAsWritten(files, ht))
    ensures SerialDecodedAsWritten(tree, SerialArchiveAsWritten(files, ht)) != Some(files)
  {
    var table := TreeTable(ht);
    var seen := Truncated(files);
    var counts := Lengths(seen);
    var records := CountedRecords(table, files, counts);
    var total := |AllBytes(seen)|;
    HeaderOf(seen, ht, total, records, tree);
    assert counts[0] == |Seen(files[0].content)| == 0 && seen[0].name == files[0].name;
    FirstRecordEmpty(tree, table, files, counts, total);
  }

  /** Records whose first count is zero do not read back as files whose second name starts with a nonzero byte. */
  lemma FirstRecordEmpty(tree: Arena, table: seq<Entry>, files: seq<File>, counts: seq<nat>, total: int)
    requires Valid(tree) && |files| >= 2 && |counts| == |files| && total > 0
    requires |files[0].name| < 1024 && files[0].content == [] && counts[0] == 0
    requires 1 <= |files[1].name| < 1024 && files[1].name[0] != 0
    ensures RecordsAsWritten(tree, CountedRecords(table, files, counts), total) != Some(files)
  {
    var f := files[0];
    var tail := CountedRecords(table, files[1..], counts[1..]);
    assert Payload(table, f.content) == [];
    assert CountedRecords(table, files, counts) == CountedRecordBytes(f.name, 0, []) + tail;
    RecordHead(f.name, 0, [], tail);
    assert [] + tail == tail;
    HeadShifted(table, files[1..], counts[1..]);
    ZeroRecordSkips(tree, CountedRecords(table, files, counts), f.name, tail, total);
  }

  /** Records whose first name starts with a nonzero byte have no readable head one byte in. */
  lemma HeadShifted(table: seq<Entry>, files: seq<File>, counts: seq<nat>)
    requires files != [] && |counts| == |files|
    requires 1 <= |files[0].name| < 1024 && files[0].name[0] != 0
    ensures var data := CountedRecords(table, files, counts); |data| >= 1 && ParseCountedHead(data[1..], 1024) == None
  {
    var f := files[0];
    var p := Payload(table, f.content);
    var after := CountedRecords(table, files[1..], counts[1..]);
    assert CountedRecords(table, files, counts) == CountedRecordBytes(f.name, counts[0], p) + after;
    assert CountedRecordBytes(f.name, counts[0], p) + after == CountedRecordBytes(f.name, counts[0], p + after);
    NameShifted(f.name, counts[0], p + after);
  }

  /** A record head read one byte late takes the name's first byte as the top byte of its length. */
  lemma NameShifted(name: seq<byte>, count: nat, rest: seq<byte>)
    requires 1 <= |name| < 1024 && name[0] != 0
    ensures ParseCountedHead(CountedRecordBytes(name, count, rest)[1..], 1024) == None
  {
    var data := CountedRecordBytes(name, count, rest);
    var n := |name|;
    assert data[..4] == LE(n, 4) && data[4] == name[0];
    assert LE(n, 4)[1..] == LE(n / 256, 3) && LE(n / 256, 3)[1..] == LE(n / 65536, 2);
    assert n / 65536 == 0 && LE(0, 2) == [0, 0];
    FromLETop4(data[1..][..4]);
  }

  /**
   * The first file read as written, from a zero-count record whose payload
   * does not start a readable head once its first byte is gone, holds at
   * least one byte.
   */
  lemma ZeroRecordSkips(tree: Arena, data: seq<byte>, name: seq<byte>, payload: seq<byte>, total: int)
    requires Valid(tree) && total > 0
    requires ParseCountedHead(data, 1024) == Some((name, 0, payload))
    requires |payload| >= 1 && ParseCountedHead(payload[1..], 1024) == None
    ensures var r := RecordsAsWritten(tree, data, total); r.Some? ==> r.value != [] && r.value[0].content != []
  {
    var run := SerialRun(tree, 0, Unpack(payload), 0);
    EmptyRecordReadsByte(tree, Unpack(payload));
    if run.Some? {
      RecordOnRun(tree, name, 0, payload, total, run.value);
      if run.value.out == [] {
        assert CeilDiv8(1) == 1;
        assert RecordsAsWritten(tree, payload[1..], total) == None;
      }
    }
  }

  /** Records whose first count is short of the first file's length do not read back as the files. */
  lemma FirstRecordCut(tree: Arena, table: seq<Entry>, files: seq<File>, counts: seq<nat>, total: int)
    requires Valid(tree) && files != [] && |counts| == |files|
    requires |files[0].name| < 1024 && 1 <= counts[0] < |files[0].content| && counts[0] < Wrap32
    ensures RecordsAsWritten(tree, CountedRecords(table, files, counts), total) != Some(files)
  {
    var f, n := files[0], counts[0];
    var tail := CountedRecords(table, files[1..], counts[1..]);
    assert CountedRecords(table, files, counts) == CountedRecordBytes(f.name, n, Payload(table, f.content)) + tail;
    RecordHead(f.name, n, Payload(table, f.content), tail);
    FirstRecordShort(tree, CountedRecords(table, files, counts), f.name, n, Payload(table, f.content) + tail, total);
  }

  /** The first file read as written holds at most as many bytes as its record's count. */
  lemma FirstRecordShort(tree: Arena, data: seq<byte>, name: seq<byte>, cantBook: nat, payload: seq<byte>, total: int)
    requires Valid(tree) && 1 <= cantBook < Wrap32
    requires ParseCountedHead(data, 1024) == Some((name, cantBook, payload))
    ensures var r := RecordsAsWritten(tree, data, total); r.Some? ==> r.value != [] && |r.value[0].content| <= cantBook
  {
    var run := SerialRun(tree, 0, Unpack(payload), cantBook);
    if run.Some? {
      RecordOnRun(tree, name, cantBook, payload, total, run.value);
    }
  }
}
