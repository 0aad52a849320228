# Huffman directory archiver: a Dafny model

This project models a Huffman compressor and decompressor for a directory of files. The repository has three variants of the pair:

- **Serial**: one process.
- **Fork**: one child process per file, with temporary files that the parent appends.
- **Hilos**: one POSIX thread per file.

Each compressor works in the same steps:

1. Count the byte frequencies over every file of the directory.
2. Build a Huffman tree by repeatedly merging the first two nodes of a list and putting their parent back in order of weight. Fork and Hilos start from a list sorted by weight, so the first two nodes are the two lightest. Serial starts from its frequency list, which is sorted by symbol, so its first two nodes need not be the two lightest.
3. Read a code table off the tree.
4. Write one archive.

Each decompressor rebuilds a decoding tree from the table and recreates the files.

The archive modelled is a flat byte sequence. Its fixed-width fields are little-endian, and bits are packed most significant first. It holds:

- **Header**: the file count (4 bytes), the total number of bytes (8 bytes) and the number of table entries (4 bytes).
- **Table**: one 10-byte triple per entry. A triple is the symbol (1 byte), the code's value (8 bytes) and the code's length (1 byte).
- **Fork record**, one per file: name length (4), name, byte count (8), payload length (8), payload.
- **Serial and Hilos record**, one per file: name length (4), name, byte count (4), payload. The payload length is not stored; the reader finds the end of the payload by decoding it.

How the code is modelled:

- Pure code (tree building, table reading, bit packing, the archive layout) is modelled as datatypes, functions and lemmas.
- Code that changes state is modelled by methods with loop invariants, each proved equal to a specification function. This covers:
  - the frequency counters: class `Fork.Counts`, class `Serial.Tally`, and class `Hilos.FileInfo` with its `localFreq` array;
  - the doubling output buffers: class `Buffers.DoublingBuffer`;
  - the code table: class `CodeTable.Table`, and the Hilos `code_len`/`code_bits` arrays;
  - the decoders' tree builders, which work on an arena of nodes;
  - the bit-by-bit encoding and decoding loops.
- The main results are round trips. For each variant, decoding the archive the compressor writes gives back the directory's files.
- Where the code as written loses information, both behaviours are modelled and the difference is proved (see "## Findings").

Shared logic is modelled once. Fork's `CountCharacter` and Serial's `contarCaracter` are the same function, and so are:

- `insertElement`/`findSymbol`/`createTable` (Fork/Tabla.h) and `insertarEnTabla`/`buscarSimbolo`/`crearTablaCodificacion` (Serial/compress.c);
- `insertarOrdenado` in Serial and in Hilos;
- `createTree` in Serial and in Hilos.

Modules:

| module | models |
|---|---|
| `Bits` | codes as bit strings, packing and unpacking |
| `Buffers` | the doubling buffer |
| `Huffman` | the tree, its leaf paths, sorted insertion, merging |
| `Frequencies` | the sorted frequency list |
| `CodeTable` | the Fork/Serial code table |
| `DecodeTree` | the decoders' tree rebuilding |
| `Decoding` | the three decoding loops |
| `Format` | the archive layout and its parsers |
| `Fork`, `Serial`, `Hilos` | the three programs |

## Model

| member | source | states |
|---|---|---|
| Bits.CodeBitsAt | Fork/decompress.c:189-190 | bit k of an n-bit code is bit n-1-k of its value: codes are read most significant bit first |
| Bits.CodeBitsOfValue | Fork/Tabla.h:24-36 | the value built by shifting in each branch bit, read back as a code of the path's length, is exactly that path |
| Bits.ValueOfBound | Fork/Tabla.h:24-36 | the value of an n-bit path is below 2^n, so the code fits its stated length |
| Bits.PackLength | Fork/compress.c:165-199 | packing a bit string gives one byte per eight bits, rounded up |
| Bits.PadByteBits | Fork/compress.c:191-192 | the last partial byte, shifted left, holds the remaining bits followed by zero padding |
| Bits.UnpackPack | Hilos/compress.c:103-117 | reading packed bytes back bit by bit gives the original bits followed by fewer than eight zero bits |
| Bits.UnpackAt | Hilos/decompress.c:90-99 | bit k of byte i of the stream is bit 7-k of that byte: bytes are consumed most significant bit first |
| Bits.PushBit | Serial/compress.c:188-198 | shifting one bit into the accumulator keeps the bytes written plus the pending bits equal to all bits emitted, and a byte is written exactly when eight bits are pending |
| Bits.Flush | Serial/compress.c:201-204 | after the final flush the bytes written are exactly the packing of all emitted bits |
| Bits.EncodeAppend | Hilos/compress.c:101-112 | encoding two byte strings one after the other gives the concatenation of their encodings |
| Bits.Int32Of | Fork/decompress.c:72 | storing the 8-byte count in a 32-bit int keeps its value whenever it is below 2^31 |
| Buffers.DoublingBuffer.constructor | Fork/compress.c:142-144 | the buffer starts empty with the requested capacity |
| Buffers.DoublingBuffer.Push | Fork/compress.c:178-182 | the contents gain the byte at the end; the capacity doubles exactly when the buffer was full and is kept otherwise |
| Huffman.LeafPathPrefix | Fork/Tabla.h:24-36 | no leaf path of a tree is a prefix of another: the codes read off a tree are prefix-free and each names one symbol |
| Huffman.LeafPathHeight | Fork/Tabla.h:24-36 | a leaf path is no longer than the tree's height, and at least one bit long when the root is an inner node |
| Huffman.LeafCodesNode | Fork/Tabla.h:30-33 | the codes of a node list the right subtree first, each prefixed with 1, then the left subtree, each prefixed with 0 |
| Huffman.LeafCodesAreLeafPaths | Fork/Tabla.h:24-36 | every code listed is the path to a leaf that holds the listed symbol |
| Huffman.LeafCodesCount | Fork/Tabla.h:24-36 | exactly one code is listed per leaf |
| Huffman.LeafCodesCover | Fork/Tabla.h:24-36 | every symbol at a leaf gets a code |
| Huffman.LeafCodesDistinct | Fork/Tabla.h:24-36 | different leaves get different codes |
| Huffman.RootWeight | Serial/compress.c:262-271 | in a well-weighted tree the root's weight is the sum of the leaves' weights |
| Huffman.InsertPos | Serial/compress.c:32-43 | the insertion point is after every lighter node and before the first node at least as heavy |
| Huffman.InsertByWeightSorted | Serial/compress.c:32-43 | inserting into a list sorted by weight keeps it sorted and adds exactly the new node |
| Huffman.InsertByWeightTotals | Serial/compress.c:32-43 | insertion adds the new node's weight, symbols and leaves to the list's totals |
| Huffman.InsertarOrdenado | Hilos/compress.c:37-48 | the linked-list walk inserts where the weight order says, the same as the sorted insertion of Serial/compress.c:32-43 |
| Huffman.MergedProperties | Serial/compress.c:262-271 | merging leaves one tree (none for an empty list) with the list's total weight and symbols, well weighted, and an inner node when there were two nodes or more |
| Huffman.MergeLoop | Hilos/compress.c:186-197 | the loop that takes the first two nodes of the list, the two lightest once the list is sorted by weight, and inserts their parent computes the merged list |
| Frequencies.CountCharacter | Fork/compress.c:87-116 | counting one byte (also Serial/compress.c:103-124) gives the counted list specification |
| Frequencies.CountedSorted | Fork/compress.c:87-116 | the frequency list stays a list of leaves with positive counts, strictly increasing by symbol |
| Frequencies.CountedCounts | Fork/compress.c:87-116 | the counted byte's frequency goes up by one and every other frequency is unchanged |
| Frequencies.CountedLength | Fork/compress.c:87-116 | the list gains a node exactly when the byte was not yet present |
| Frequencies.CountedTotals | Fork/compress.c:87-116 | the list's total weight goes up by one and its symbols gain the byte |
| Frequencies.CountAllProperties | Fork/compress.c:31-49 | after a file is counted, each symbol's frequency grows by its number of occurrences in the file, and the list stays sorted |
| Frequencies.CountAllAppend | Fork/compress.c:57-81 | counting two files one after the other is counting their concatenation |
| Frequencies.CountedTree | Serial/compress.c:254-271 | counting then merging gives one tree exactly when there is data, with leaves for exactly the bytes present and a root weight equal to the number of bytes |
| CodeTable.FindSymbol | Fork/Tabla.h:69-75 | returns the first entry holding the symbol, or -1 exactly when no entry holds it; the entry's code is the table's code for the symbol, and no bits when it is missing |
| CodeTable.Table.constructor | Serial/compress.c:23 | the table starts empty |
| CodeTable.Table.InsertElement | Fork/Tabla.h:39-66 | the entry is linked in at its place in symbol order (also Serial/compress.c:54-71) |
| CodeTable.InsertedSorted | Fork/Tabla.h:55-64 | insertion keeps the table sorted by symbol |
| CodeTable.InsertedElems | Fork/Tabla.h:39-66 | insertion adds exactly the new entry and keeps the codes distinct when the new code is new |
| CodeTable.Table.CreateTable | Fork/Tabla.h:24-36 | the recursive walk (also Serial/compress.c:81-90) inserts the code of every leaf below the node, right subtree first |
| CodeTable.InsertedAllElems | Fork/Tabla.h:24-66 | inserting a list of entries adds exactly those entries and keeps the table sorted |
| CodeTable.InsertedAllDistinct | Fork/Tabla.h:24-66 | a table built from a tree has distinct codes |
| CodeTable.TreeTableProperties | Fork/Tabla.h:24-66 | the table of a tree has one entry per leaf, sorted by symbol; each entry is the path to a leaf with its symbol; the codes are distinct; every leaf symbol has an entry |
| CodeTable.TreeTableFits | Fork/Tabla.h:24-36 | each entry's bit value fits in its stated length |
| CodeTable.TableCodeIsLeafPath | Fork/compress.c:165-171 | the code looked up for a symbol of the tree is the path to its leaf |
| DecodeTree.RebuildHuffmanTree | Fork/decompress.c:174-211 | for prefix-free codes of one bit or more, the rebuilt tree decodes each code to its symbol |
| DecodeTree.Descend | Fork/decompress.c:189-205 | following one bit reuses the child or links a new empty node, and then stands at the extended path |
| DecodeTree.ForkInsert | Fork/decompress.c:187-208 | inserting one code extends the tree so that every earlier code still decodes and the new code reaches its symbol; a code of no bits stores its symbol at the root and changes nothing else |
| DecodeTree.CreateTree | Serial/decompress.c:108-145 | for prefix-free codes (also Hilos/decompress.c:42-75), the tree grown from an empty root decodes every code to its symbol |
| DecodeTree.WalkCode | Serial/decompress.c:116-139 | walking all but the last bit of a code ends at the inner node whose path is that prefix, creating missing nodes on the way |
| DecodeTree.DescendCode | Serial/decompress.c:118-139 | one step of the mask walk reuses or creates the child for the bit and keeps the walk's invariant |
| DecodeTree.Hang | Serial/decompress.c:140-143 | the new leaf holds the symbol, hangs from the cursor on the code's last bit, and leaves every other node unchanged |
| DecodeTree.SlotFree | Serial/decompress.c:140-143 | for prefix-free codes, the slot where a code's leaf hangs is still free |
| DecodeTree.AttachEntry | Serial/decompress.c:116-143 | attaching one code keeps every earlier code decoding and makes the new one decode to its symbol |
| DecodeTree.StoredDecodes | Serial/decompress.c:108-145 | every code already inserted decodes to its own symbol |
| DecodeTree.DecodesTableCode | Fork/decompress.c:60-93 | a tree that decodes every entry decodes each symbol's table code to that symbol |
| DecodeTree.ReadOffPrefixFree | Serial/compress.c:81-90 | the codes read off any tree are prefix-free, and all at least one bit long when the root is an inner node |
| Decoding.Run | Hilos/decompress.c:78-103 | decoding yields at most the requested number of symbols within the available bits, and stops only when enough symbols came out or the bits ran out |
| Decoding.RunEncodeExact | Hilos/decompress.c:78-103 | decoding as many symbols as were encoded gives back the data and stops right after its encoding, whatever follows |
| Decoding.ForkRunIsRun | Fork/decompress.c:74-90 | the Fork loop, which tests its counter at each leaf, yields the output of the common decoding run |
| Decoding.ForkDecodeBit | Fork/decompress.c:76-86 | one bit moves to a child, or fails exactly when the child is missing; a leaf emits its symbol and lowers the counter |
| Decoding.ForkDecodeByte | Fork/decompress.c:75-89 | the eight bits of one byte, most significant first, advance the decoding by exactly one byte of the stream |
| Decoding.DecompressBook | Fork/decompress.c:60-93 | the book's text is the Fork decoding of its payload bits with its count truncated to int |
| Decoding.HilosDecodeBit | Hilos/decompress.c:90-99 | one bit moves to a child, or fails exactly when the child is missing; a leaf emits its symbol and returns to the root |
| Decoding.ProcessSegment | Hilos/decompress.c:78-103 | succeeds exactly when the run does; the bytes consumed are the bits used rounded up to bytes, and in mode 1 the buffer holds the run's output |
| Decoding.Dec32 | Serial/decompress.c:74 | decrementing the unsigned count takes one off a positive value and wraps zero to 2^32-1 |
| Decoding.SerialRun | Serial/decompress.c:59-87 | the do-while loop always consumes at least one bit and, for a positive count, emits no more symbols than the count |
| Decoding.SerialRunIsRun | Serial/decompress.c:59-87 | for a positive count, the Serial loop yields exactly the common decoding run |
| Decoding.SerialBit | Serial/decompress.c:65-85 | one bit moves to a child, or fails exactly when the child is missing; a leaf emits its symbol and decrements the count |
| Decoding.SerialPayload | Serial/decompress.c:59-91 | the record's text and the bytes it takes are those of the Serial run, and the characters left drop by the symbols emitted |
| Decoding.EmptyRecordReadsByte | Serial/decompress.c:64-74 | a record with a zero count, as written, never decodes to nothing without reading bits; when it yields no symbol it has read exactly one bit, and so one byte |
| Decoding.SerialRecordRun | Serial/decompress.c:59-87 | the corrected record decoder reads nothing for an empty record |
| Decoding.SerialRecordRunEncode | Serial/decompress.c:59-87 | the corrected record decoder gives back any encoded data, empty or not, and stops right after its encoding |
| Format.FromLEofLE | Fork/decompress.c:105-113 | an unsigned field read back gives the value written |
| Format.SignedLE | Fork/decompress.c:105-113 | a signed field read back gives the value written when that value is below half the field's range |
| Format.TopByte | Fork/compress.c:377-381 | a value below half the field's range has a top byte below 128, so the signed read sees it as non-negative |
| Format.ParseTableBytes | Fork/decompress.c:178-185 | reading as many triples as were written gives back the table and the bytes after it |
| Format.ParseHeaderBytes | Fork/decompress.c:105-116 | reading a written header gives back its file count, total and table, and the bytes after it |
| Format.WriteHeader | Fork/compress.c:377-395 | the header written (also Serial/compress.c:281-298) is the file count, the total, the entry count and the triples |
| Format.PayloadBits | Fork/compress.c:165-199 | a payload is the packed encoding of the file, and its bits followed by any tail are the code bits, the padding, then the tail |
| Format.TreeTableFacts | Serial/compress.c:273-298 | the table of a tree of height 31 or less fits the triple fields, has prefix-free codes of 1 to 31 bits, and gives each leaf its path |
| Format.CoveredInTable | Fork/compress.c:165-171 | every byte of a file counted into the tree has an entry in the table |
| Format.CountedRecordsSnoc | Serial/compress.c:209-236 | the records of a directory with one more file are the earlier records followed by that file's record |
| Format.ParseForkRecord | Fork/decompress.c:128-141 | reading a record consumes at least one byte and leaves the rest of the archive |
| Format.ParseForkRecordBytes | Fork/decompress.c:128-141 | reading a written Fork record gives back its title, count and payload, and the bytes after it |
| Format.ParseCountedHead | Serial/decompress.c:46-48 | a record head that reads yields a name shorter than the limit, taken from the bytes right after the length field, a count below 2^32, and the rest of the data after the head's 8 + name bytes |
| Format.ParseCountedHeadBytes | Serial/decompress.c:46-48 | reading a written Serial/Hilos record head gives back its name, count and payload |
| Fork.Counts.constructor | Fork/compress.c:22-23 | the counters start at an empty list and zero totals |
| Fork.Counts.ProcessFile | Fork/compress.c:31-49 | the list becomes the old list with the file counted, and the length grows by the file's size |
| Fork.Counts.ProcessDirectory | Fork/compress.c:57-81 | the directory's bytes are counted in order; the length grows by their number and the file count by the number of files |
| Fork.SortList | Fork/compress.c:339 | the sorted list is a permutation of the list, sorted by weight |
| Fork.InsertInOrder | Fork/compress.c:342-352 | the parent is spliced in at a position that keeps the list sorted by weight |
| Fork.MergeTree | Fork/compress.c:342-352 | merging leaves one tree (none for an empty list) with the list's weight, symbols and leaves, an inner node when there were two nodes or more |
| Fork.BuildTree | Fork/compress.c:330-352 | the tree's weight is the number of bytes and its symbols are exactly the bytes present; the totals are the number of bytes and of files |
| Fork.ShiftIn | Fork/compress.c:172-186 | shifting in one bit keeps the buffer plus the pending bits equal to all bits emitted, and the byte count equal to the buffer's size |
| Fork.EmitCode | Fork/compress.c:172-186 | emitting an entry's code appends its bits, most significant first |
| Fork.EncodeData | Fork/compress.c:165-188 | after the loop, the buffer plus the pending bits are the encoding of the file |
| Fork.FlushLast | Fork/compress.c:191-199 | after the flush the buffer holds exactly the packed bits, and the count is its size |
| Fork.CompressFile | Fork/compress.c:118-212 | the temporary record is the name, the byte count, the payload length and the packed encoding |
| Fork.WriteArchive | Fork/compress.c:372-397 | the archive is the header followed by the records of the files in order |
| Fork.Compress | Fork/compress.c:305-416 | fails exactly on an empty input or a code longer than 31 bits; otherwise writes the archive of the tree built from the directory, whose leaves are exactly the bytes present |
| Fork.ForkEntryWalk | Fork/decompress.c:181-189 | the insertion loop walks as many bits as the signed `char` length when it is positive and none otherwise, so a length of 128 or more gives the empty code (which `DecodeTree.ForkInsert` stores at the root) |
| Fork.ReadBooks | Fork/decompress.c:128-145 | reads as many books as the header says, or fails on a short record |
| Fork.DecompressBooks | Fork/decompress.c:148-157 | each book decodes with the shared tree, in order |
| Fork.Decompress | Fork/decompress.c:96-171 | the books' contents are recreated from the rebuilt tree, which decodes every code of the archive's table; no result when a length would make the rebuild shift by 64 or more |
| Fork.FileRoundTrip | Fork/decompress.c:60-93 | decoding a file's payload with its own count gives back the file |
| Fork.ParseBooksRecords | Fork/decompress.c:128-145 | reading the records written for a directory gives back one book per file |
| Fork.DecodeBooksOf | Fork/decompress.c:148-157 | decoding those books gives back the files |
| Fork.ForkHeaderOf | Fork/decompress.c:105-116 | the header of a written archive reads back, and the tree rebuilt from it decodes every table entry |
| Fork.ForkRoundTrip | Fork/decompress.c:96-171 | decompressing the archive of a directory gives back its files, for a tree of height at most 31 and names of at most 255 bytes |
| Fork.CompressedReady | Fork/compress.c:339-354 | a directory with two distinct bytes, within the field limits, meets the round trip's conditions |
| Serial.Seen | Serial/compress.c:133-139 | the bytes counted are a prefix of the file with no 0xFF byte, cut at its first 0xFF |
| Serial.SeenWhole | Serial/compress.c:133-139 | a file without 0xFF is counted whole |
| Serial.CountUntilFF | Serial/compress.c:133-139 | the loop counts exactly the bytes before the first 0xFF |
| Serial.Tally.constructor | Serial/compress.c:24-28 | the counters start empty, with a count buffer of the initial capacity |
| Serial.Tally.ProcesarArchivo | Serial/compress.c:126-153 | the file's bytes up to its first 0xFF are counted, and that count is appended to the per-file counts |
| Serial.Tally.ProcesarDirectorio | Serial/compress.c:155-172 | every file is processed in order |
| Serial.ShiftCodes | Serial/compress.c:184-199 | after the loop, the bytes written plus the pending bits are the encoding of the file |
| Serial.ShiftBit | Serial/compress.c:188-198 | shifting one bit keeps the bytes written plus the pending bits equal to all bits emitted |
| Serial.EmitCode | Serial/compress.c:186-198 | emitting an entry's code appends its bits, most significant first |
| Serial.ComprimirArchivo | Serial/compress.c:176-207 | the payload is the packed encoding of the whole file |
| Serial.ComprimirDirectorio | Serial/compress.c:209-236 | each file's record is its name, its count from the first pass, and its payload, in order |
| Serial.BuildTree | Serial/compress.c:240-271 | the tree is built from the bytes before each file's first 0xFF, and the totals and per-file counts are theirs |
| Serial.Compress | Serial/compress.c:240-312 | fails exactly when no byte is counted or a code is longer than 31 bits; otherwise writes the archive as written |
| Serial.AsWrittenWithoutFF | Serial/compress.c:133-139 | without 0xFF bytes, the archive as written is the intended archive |
| Serial.DecompressRecords | Serial/decompress.c:34-105 | the record loop computes the as-written reading of the records |
| Serial.Decompress | Serial/decompress.c:182-292 | the files are the as-written reading of the archive, with a rebuilt tree that decodes every code |
| Serial.PayloadDecodes | Serial/decompress.c:59-87 | a payload decodes to its file and takes exactly its own bytes, whatever follows |
| Serial.RecordHead | Serial/decompress.c:46-48 | a written record head reads back its name and count |
| Serial.SerialRecordsOf | Serial/decompress.c:34-105 | with the corrected reader, the records of a directory read back as its files |
| Serial.AsWrittenRecordsOf | Serial/decompress.c:34-105 | with the as-written reader, records of nonempty files read back as the files |
| Serial.HeaderOf | Serial/decompress.c:269-280 | the header reads back, its shifts are defined, and the rebuilt tree decodes every table entry |
| Serial.SerialRoundTrip | Serial/decompress.c:182-292 | with the counting fixed and the reader corrected, decompressing the archive gives back the files |
| Serial.AsWrittenRoundTrip | Serial/decompress.c:182-292 | as written, decompressing gives back the files when every file is nonempty and has no 0xFF byte |
| Serial.TrailingEmptyFileLost | Serial/decompress.c:88-91 | as written, an empty file after the others is not recreated |
| Serial.TrailerIgnored | Serial/decompress.c:88-91 | once the characters are used up, the remaining records are never read |
| Serial.FFCutsFile | Serial/compress.c:135 | as written, with a tree for the bytes counted, a first file holding a 0xFF byte after at least one other byte does not come back intact |
| Serial.CompressedReady | Serial/compress.c:254-271 | the tree Compress builds for the counted bytes, within the field limits, meets what the readers need of the counted files |
| Serial.FirstRecordCut | Serial/compress.c:135 | a record whose count stops short of its file's length cannot read back as that file |
| Serial.EmptyFirstFileLost | Serial/decompress.c:59-98 | as written, an empty first file followed by a file whose name starts with a nonzero byte does not come back |
| Serial.FirstRecordEmpty | Serial/decompress.c:59-98 | records whose first count is zero cannot read back as the files when the second name starts with a nonzero byte |
| Serial.HeadShifted | Serial/decompress.c:94-98 | one byte into records whose first name starts with a nonzero byte there is no readable record head |
| Serial.NameShifted | Serial/decompress.c:94-98 | a record head read one byte late takes the name's first byte as the top byte of the name length, which then exceeds the 1024-byte buffer |
| Serial.ZeroRecordSkips | Serial/decompress.c:64-87 | a zero-count record read as written yields a nonempty first file or no result, when its payload holds no readable head one byte in |
| Serial.FirstRecordShort | Serial/decompress.c:59-87 | when the first record head gives a positive count, the first file read is no longer than that count |
| Hilos.HistogramSnoc | Hilos/compress.c:78-80 | counting one more byte raises exactly that byte's entry by one |
| Hilos.HistogramSum | Hilos/compress.c:70-84 | the histogram's entries add up to the file's length |
| Hilos.OccurrencesElements | Hilos/compress.c:175-185 | a byte has a positive count exactly when it occurs |
| Hilos.FileInfo.constructor | Hilos/compress.c:147-161 | a file record starts with its name, zero counts and no compressed data |
| Hilos.FileInfo.ThreadCount | Hilos/compress.c:70-84 | the local histogram counts the file's bytes, and the size is the length modulo 2^32 |
| Hilos.FileInfo.ThreadCompress | Hilos/compress.c:87-122 | the compressed data is the packing of the file's encoding under the code arrays, and its size is the code lengths' sum rounded up to bytes |
| Hilos.PushCodeBit | Hilos/compress.c:103-111 | shifting one bit keeps the buffer plus the pending bits equal to all bits emitted |
| Hilos.EmitBits | Hilos/compress.c:101-112 | emitting a code appends its low bits, most significant first |
| Hilos.FlushBits | Hilos/compress.c:113-117 | after the flush the buffer holds exactly the packed bits |
| Hilos.CountFiles | Hilos/compress.c:163-172 | every file record holds its name, its size modulo 2^32 and its own histogram, each in a separate record |
| Hilos.Reduce | Hilos/compress.c:163-172 | the global histogram is the histogram of all the bytes, and the total is the sum of the sizes |
| Hilos.BuildLeafList | Hilos/compress.c:175-185 | the leaf list is the sorted insertion of a leaf for each byte with a positive count |
| Hilos.LeafListOrdered | Hilos/compress.c:175-185 | the leaf list is sorted by weight and holds one leaf per byte present |
| Hilos.LeafListTotals | Hilos/compress.c:175-185 | the leaf list's weight is the sum of the counts and its symbols are the bytes with positive counts |
| Hilos.HilosTreeProperties | Hilos/compress.c:163-197 | a tree is built exactly when there are bytes; its leaves are the bytes present and its weight is their number |
| Hilos.TotalUnwrapped | Hilos/compress.c:163-172 | the total is the number of bytes of the directory |
| Hilos.PathOfIsLeafPath | Hilos/compress.c:57-67 | the path assigned to a leaf symbol leads to that leaf |
| Hilos.WriteCodesSpec | Hilos/compress.c:57-67 | every leaf symbol gets its prefix-plus-path length modulo 256 and value modulo 2^32; other symbols keep their entries |
| Hilos.CrearTablaCodificacion | Hilos/compress.c:57-67 | the recursive walk fills the code arrays as the specification says |
| Hilos.FillCodes | Hilos/compress.c:198 | the arrays hold the codes of the root's tree, or stay zero without one |
| Hilos.CountSymbols | Hilos/compress.c:210-214 | the symbol count is the number of bytes with a nonzero code length |
| Hilos.WriteTriples | Hilos/compress.c:216-223 | the triples are written for the bytes with a nonzero length, in byte order |
| Hilos.WriteHilosHeader | Hilos/compress.c:208-223 | the header is the file count, the total, the symbol count and the triples |
| Hilos.TriplesCodeAt | Hilos/compress.c:216-223 | a byte has a triple exactly when its length is nonzero, with its code from the arrays |
| Hilos.HilosTableCodes | Hilos/compress.c:216-223 | the table's codes are the arrays' codes |
| Hilos.TriplesMembers | Hilos/compress.c:216-223 | the triples are distinct bytes in increasing order, no more than the bytes scanned |
| Hilos.PathFits | Hilos/compress.c:57-67 | a path of at most 32 bits fits both the length byte and the 32-bit value |
| Hilos.LeafCodeFits | Hilos/compress.c:57-67 | for a tree of height at most 32, each leaf's code is stored without wrap-around |
| Hilos.HilosTableEntries | Hilos/compress.c:198-223 | for a tree of height at most 32, the table is read off the tree, fits the triples, is sorted by symbol and has defined shifts |
| Hilos.HilosTableFacts | Hilos/compress.c:198-223 | the table additionally has distinct codes and an entry for every leaf, and the lengths fit |
| Hilos.HilosLeafEntries | Hilos/compress.c:198-223 | every leaf symbol has an entry, and no length exceeds 32 |
| Hilos.CompressEntries | Hilos/compress.c:200-204 | each file record's compressed data is its file's payload |
| Hilos.WriteRecords | Hilos/compress.c:224-229 | the records are, in order, name length, name, size and compressed data |
| Hilos.SizesLengths | Hilos/compress.c:224-229 | for files shorter than 2^32 bytes the `unsigned int` sizes written are the files' lengths |
| Hilos.WriteArchive | Hilos/compress.c:208-229 | the archive is the header followed by the records |
| Hilos.CountPhase | Hilos/compress.c:147-172 | each file gets its own record, the global histogram counts all bytes, and the total is the sum of the sizes |
| Hilos.BuildCodes | Hilos/compress.c:175-198 | the code arrays are those of the tree built from the global histogram |
| Hilos.Compress | Hilos/compress.c:124-245 | fails exactly on an empty directory or a code longer than 32 bits; otherwise writes the archive of the directory's tree |
| Hilos.AsWrittenWithin | Hilos/decompress.c:180-205 | every task found lies within the archive |
| Hilos.ReadTask | Hilos/decompress.c:183-191 | reads one record head and walks its payload: ends, fails, or yields a task whose payload starts after the head and ends where the next one starts |
| Hilos.Segmentation | Hilos/decompress.c:180-205 | the tasks are the as-written segmentation, which runs while characters remain |
| Hilos.CString | Hilos/decompress.c:119-120 | a string ends at its first zero byte |
| Hilos.FullPath | Hilos/decompress.c:119-120 | the path is at most the buffer's size, has no zero byte, and is a prefix of directory, slash, name |
| Hilos.PrefixesFromMembers | Hilos/decompress.c:122-125 | each directory made is a prefix of the path that ends just before a slash |
| Hilos.FlatNameDirectories | Hilos/decompress.c:119-125 | for a name without a slash, the directories made are those of the output directory and the directory itself |
| Hilos.StrChr | Hilos/decompress.c:122 | returns the first position of the byte from the start position, or -1 when it does not occur before the terminator |
| Hilos.CutAt | Hilos/decompress.c:123-125 | writing a zero at a position cuts the string there |
| Hilos.NextSlash | Hilos/decompress.c:122 | the directories made from a position are those made from the next slash, or none without one |
| Hilos.CutAndRestore | Hilos/decompress.c:123-125 | cutting at a slash gives the prefix up to it, and restoring the slash leaves the path unchanged |
| Hilos.MakeDirectories | Hilos/decompress.c:121-126 | the directories created are every prefix ending before a slash, and the path is left unchanged |
| Hilos.DecompressThread | Hilos/decompress.c:106-142 | the thread's file is its task's decoding, placed at its path with its directories |
| Hilos.DecompressTasks | Hilos/decompress.c:208-215 | the files are the tasks' decodings in order, each with its placement |
| Hilos.Decompress | Hilos/decompress.c:144-223 | the files are the as-written reading of the archive, with a rebuilt tree that decodes every code |
| Hilos.PayloadRuns | Hilos/decompress.c:78-103 | a payload decodes to its file within exactly its own bytes |
| Hilos.RecordHeadAt | Hilos/decompress.c:183-191 | a written record head reads back its name and count |
| Hilos.RecordsOf | Hilos/decompress.c:180-205 | written records yield one task per file, each decoding to its file |
| Hilos.CountedTasksOf | Hilos/decompress.c:180-205 | reading as many tasks as the file count finds every file's task |
| Hilos.AsWrittenTasksOf | Hilos/decompress.c:180-205 | the as-written reading finds the tasks of the files up to the last nonempty one |
| Hilos.FilesOfRecords | Hilos/decompress.c:208-215 | the tasks decode to the files |
| Hilos.HilosHeaderOf | Hilos/decompress.c:167-177 | the header reads back, and the rebuilt tree decodes every table entry |
| Hilos.CountedFiles | Hilos/decompress.c:180-215 | with the file count used, the tasks decode to all the files |
| Hilos.AsWrittenFiles | Hilos/decompress.c:180-215 | as written, the tasks decode to the files up to the last nonempty one |
| Hilos.HilosRoundTrip | Hilos/decompress.c:144-223 | with the reader corrected to use the file count, decompressing the archive gives back the files |
| Hilos.HilosAsWrittenRoundTrip | Hilos/decompress.c:182 | as written, decompressing gives back the files up to the last nonempty one |
| Hilos.KeptProperties | Hilos/decompress.c:182 | the files kept are a prefix that ends with a nonempty file, and all dropped files are empty |
| Hilos.KeptAll | Hilos/decompress.c:182 | every file is kept exactly when the last file is nonempty or there are none |
| Hilos.TrailingEmptyFileLost | Hilos/decompress.c:182 | an empty file added at the end is not kept |

## Left out

- Files and directories come in as values: a directory is the sequence of its files. Both the counting pass and the compressing pass see the same `readdir` order. `opendir`/`fopen` failures are not modelled.
- The output directories are not created. Fork's and Serial's `mkdir`, Hilos's `rm -rf` of the output directory and `mkdir` of each prefix are represented only by the list of directories asked for (`Hilos.MakeDirectories`, `Hilos.Placements`). Serial's `removeDirectoryContents` and interactive prompt are not modelled.
- Concurrency is not modelled. Fork's child processes write temporary files that the parent appends; the model computes each file's record in turn and concatenates them in file order. Hilos's threads run one after another, and one thread failing makes the whole result fail. The mutex is unused.
- Timing (`gettimeofday`), progress and error messages, and debug tables printed are left out.
- Memory allocation failure and freeing of trees, lists and tables are left out. A `realloc` that fails is not modelled.
- The header fields are written in host byte order; the model fixes little-endian.
- Undefined behaviour makes the model return no result rather than guess. This covers a child pointer that is missing while decoding and a name longer than the reader's buffer. It also covers three specific cases:
  - Serial's `1 << (nBits-1)` in `createTree` is defined only for a code of 1 to 31 bits (`Serial.ShiftsDefined`).
  - Fork's `bits >> bitPos` on a 64-bit `unsigned long` (Fork/decompress.c:188) is defined only for a length of 64 or less (`Fork.ForkShiftsDefined`).
  - Hilos writes `symbolCount` bytes of `outBuf` (Hilos/decompress.c:112,133); when the segment ends early the tail of that buffer is uninitialised, and `Hilos.TaskFile` gives no file.
- A read past the end of the archive is a simplification. In C, `fread` at the end of the file leaves its variable unchanged; for example Serial's `temp` (Serial/decompress.c:60,82) and `cant` (line 94) keep their earlier values. The model returns no result instead.
- Fork.Counts.constructor: starts from an empty list, but `main` declares `List` without initialising it (Fork/compress.c:305) before `processDirectory` counts into it. The model treats that list as empty.
- Frequencies are unbounded naturals. Serial's `int frecuencia` (Serial/compress.c:10) overflows past 2^31-1 occurrences of one byte, and that overflow is not modelled.
- Codes longer than the code variables are not compressed: 31 bits for the `int` shifts of Fork and Serial, 32 bits for Hilos's `uint32_t`. The compressors return no result then.
- A directory with a single distinct byte gives a tree that is a lone leaf; its files encode to no bits. The round trips are proved for trees with at least two leaves (`Fork.CompressedReady` and `Serial.CompressedReady` show when this holds).
- Fork.SortList: states only that the result is a permutation sorted by weight, because Nodos.h is not part of this model.
- Fork.InsertInOrder: states only that the parent is placed where the weight order allows, because Nodos.h is not part of this model.
- Fork.MergeTree: states the merged tree's weight, symbols and leaf count rather than its exact shape, which depends on `insertInOrder`.
- Fork.Decompress: the files are stated in terms of the rebuilt tree, which is returned beside them; the round trip says what that tree decodes.
- Serial.Decompress: the files are stated in terms of the rebuilt tree, which is returned beside them; the round trips say what that tree decodes.
- Hilos.Decompress: the files are stated in terms of the rebuilt tree, which is returned beside them. The files are returned rather than written.
- Hilos.DecompressTasks: the threads are run one after another in task order.

## Findings

| source | as written | input that shows it | evidently intended | confidence | as-written member | corrected member |
|---|---|---|---|---|---|---|
| Serial/decompress.c:64-87 | the do-while reads a payload byte and walks a bit before it tests the count, so a record whose count is 0 consumes a byte, which makes the next record head read one byte late, or, at a leaf, wraps the count to 2^32-1 | a directory holding an empty file "a" followed by a file "b" holding the bytes 0x41 0x42 | a record with count 0 reads no payload | not executed | Serial.EmptyFirstFileLost | Decoding.SerialRecordRunEncode |
| Serial/decompress.c:88-91 | the record loop stops once the characters left reach 0, so records after the last nonempty file are never read | files "a" holding the bytes 0x41 0x42 and "b" holding none | every record the header counts is recreated | not executed | Serial.TrailingEmptyFileLost | Serial.SerialRoundTrip |
| Serial/compress.c:135 | the byte read is an unsigned char compared with EOF cast to unsigned char, so counting stops at the first 0xFF byte: the record's count is that of the bytes before it, and the compressor skips the bytes that got no code | a file holding the bytes 0x41 0x42 0xFF 0x43 | every byte of the file is counted | not executed | Serial.FFCutsFile | Serial.SerialRoundTrip |
| Hilos/decompress.c:182 | segmentation runs while the characters left are positive and never uses the file count it reads, so empty files after the last nonempty one get no task | files "a" holding the bytes 0x41 0x42 and "b" holding none | as many tasks as the header's file count | not executed | Hilos.TrailingEmptyFileLost | Hilos.HilosRoundTrip |
