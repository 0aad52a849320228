/**
 * Walking compressed bits through a rebuilt tree: the bit loops of Fork's
 * decompressBook, Hilos' processSegment and Serial's decompress, and the
 * property that makes them decoders: the bits of an encoding walk back to
 * the bytes encoded.
 */
module Decoding {
  import opened Wrappers
  import opened Bits
  import opened DecodeTree

  /** The symbols emitted and the number of bits they took. */
  datatype Decoded = Decoded(out: seq<byte>, used: nat)

  function Prepend(o: seq<byte>, k: nat, r: Option<Decoded>): Option<Decoded>
  {
    match r
    case None => None
    case Some(d) => Some(Decoded(o + d.out, k + d.used))
  }

  lemma PrependNothing(r: Option<Decoded>)
    ensures Prepend([], 0, r) == r
  {
    if r.Some? {
      assert [] + r.value.out == r.value.out;
    }
  }

  lemma PrependPrepend(a: seq<byte>, i: nat, b: seq<byte>, j: nat, r: Option<Decoded>)
    ensures Prepend(a, i, Prepend(b, j, r)) == Prepend(a + b, i + j, r)
  {
    if r.Some? {
      assert a + (b + r.value.out) == (a + b) + r.value.out;
    }
  }

  /**
   * Walk the bits from node cur, emitting a leaf's symbol and going back to
   * the root each time one is reached, until `remaining` symbols are out or
   * the bits run out. None when the walk follows a missing child (a NULL
   * dereference in the C code).
   */
  function Run(t: Arena, cur: int, bits: seq<bool>, remaining: nat): (r: Option<Decoded>)
    requires Valid(t) && 0 <= cur < Size(t)
    ensures r.Some? ==> |r.value.out| <= remaining && r.value.used <= |bits|
    ensures r.Some? ==> |r.value.out| == remaining || r.value.used == |bits|
    decreases |bits|
  {
    if remaining == 0 || bits == [] then Some(Decoded([], 0))
    else
      var n := Child(t, cur, bits[0]);
      if n == -1 then None
      else if IsLeaf(t, n) then Prepend([t.sym[n]], 1, Run(t, 0, bits[1..], remaining - 1))
      else Prepend([], 1, Run(t, n, bits[1..], remaining))
  }

  /** Starting part-way down a code, the walk finishes the code and emits its symbol. */
  lemma {:induction false} RunCode(t: Arena, c: seq<bool>, s: byte, m: nat, rest: seq<bool>, r: nat)
    requires Valid(t) && Decodes(t, c, s) && m < |c|
    requires Follow(t, 0, c[..m]) >= 0
    ensures Run(t, Follow(t, 0, c[..m]), c[m..] + rest, r + 1) == Prepend([s], |c| - m, Run(t, 0, rest, r))
    decreases |c| - m
  {
    var cur := Follow(t, 0, c[..m]);
    var bits := c[m..] + rest;
    assert bits[0] == c[m] && bits[1..] == c[m + 1..] + rest;
    assert c[..m + 1] == c[..m] + [c[m]];
    FollowSnoc(t, 0, c[..m], c[m]);
    if m + 1 == |c| {
      assert c[..m + 1] == c;
      assert c[m + 1..] + rest == rest;
    } else {
      assert !IsLeaf(t, Follow(t, 0, c[..m + 1]));
      RunCode(t, c, s, m + 1, rest, r);
      PrependPrepend([], 1, [s], |c| - m - 1, Run(t, 0, rest, r));
      assert [] + [s] == [s];
    }
  }

  /**
   * When the tree decodes every code used, walking an encoding of data
   * followed by anything emits data first, taking exactly the encoding's bits.
   */
  lemma {:induction false} RunEncode(t: Arena, codes: seq<seq<bool>>, data: seq<byte>, rest: seq<bool>, r: nat)
    requires Valid(t) && |codes| == 256
    requires forall i :: 0 <= i < |data| ==> Decodes(t, codes[data[i]], data[i])
    ensures Run(t, 0, Encode(codes, data) + rest, |data| + r)
         == Prepend(data, |Encode(codes, data)|, Run(t, 0, rest, r))
    decreases |data|
  {
    if data == [] {
      assert Encode(codes, data) + rest == rest;
      PrependNothing(Run(t, 0, rest, r));
    } else {
      var x, data' := data[0], data[1..];
      forall i | 0 <= i < |data'| ensures Decodes(t, codes[data'[i]], data'[i]) {
        assert data'[i] == data[i + 1];
      }
      RunEncode(t, codes, data', rest, r);
      assert data == [x] + data';
      RunEncodeStep(t, codes, x, data', rest, r);
    }
  }

  /** The step of RunEncode: one more byte in front of data. */
  lemma RunEncodeStep(t: Arena, codes: seq<seq<bool>>, x: byte, data: seq<byte>, rest: seq<bool>, r: nat)
    requires Valid(t) && |codes| == 256 && Decodes(t, codes[x], x)
    requires Run(t, 0, Encode(codes, data) + rest, |data| + r) == Prepend(data, |Encode(codes, data)|, Run(t, 0, rest, r))
    ensures Run(t, 0, Encode(codes, [x] + data) + rest, |data| + 1 + r)
         == Prepend([x] + data, |Encode(codes, [x] + data)|, Run(t, 0, rest, r))
  {
    EncodeCons(codes, x, data);
    assert Encode(codes, [x] + data) + rest == codes[x] + (Encode(codes, data) + rest);
    RunCodeThen(t, codes[x], x, Encode(codes, data) + rest, |data| + r, Run(t, 0, rest, r), data, |Encode(codes, data)|);
  }

  /** A whole code in front of bits that walk to a known result adds its symbol in front of that result. */
  lemma RunCodeThen(t: Arena, c: seq<bool>, s: byte, tail: seq<bool>, n: nat, res: Option<Decoded>, out: seq<byte>, k: nat)
    requires Valid(t) && Decodes(t, c, s)
    requires Run(t, 0, tail, n) == Prepend(out, k, res)
    ensures Run(t, 0, c + tail, n + 1) == Prepend([s] + out, |c| + k, res)
  {
    assert c[..0] == [] && c[0..] == c;
    RunCode(t, c, s, 0, tail, n);
    PrependPrepend([s], |c|, out, k, res);
  }

  /** Asked for exactly |data| symbols, the walk returns data and stops at the end of its encoding. */
  lemma RunEncodeExact(t: Arena, codes: seq<seq<bool>>, data: seq<byte>, rest: seq<bool>)
    requires Valid(t) && |codes| == 256
    requires forall i :: 0 <= i < |data| ==> Decodes(t, codes[data[i]], data[i])
    ensures Run(t, 0, Encode(codes, data) + rest, |data|) == Some(Decoded(data, |Encode(codes, data)|))
  {
    RunEncode(t, codes, data, rest, 0);
    assert data + [] == data;
  }

  // ---------------------------------------------------------------------------
  // Fork: decompressBook

  function Then(o: seq<byte>, r: Option<seq<byte>>): Option<seq<byte>>
  {
    match r
    case None => None
    case Some(x) => Some(o + x)
  }

  function Outputs(r: Option<Decoded>): Option<seq<byte>>
  {
    match r
    case None => None
    case Some(d) => Some(d.out)
  }

  lemma OutputsPrepend(o: seq<byte>, k: nat, r: Option<Decoded>)
    ensures Outputs(Prepend(o, k, r)) == Then(o, Outputs(r))
  {
  }

  lemma ThenNothing(r: Option<seq<byte>>)
    ensures Then([], r) == r
  {
    if r.Some? {
      assert [] + r.value == r.value;
    }
  }

  /**
   * Fork decompress.c:72-89 on the unpacked payload: each bit is walked,
   * a leaf emits and decrements the count, and the walk stops once the
   * count is not positive, tested after every bit.
   */
  function ForkRun(t: Arena, cur: int, bits: seq<bool>, cant: int): Option<seq<byte>>
    requires Valid(t) && 0 <= cur < Size(t)
    decreases |bits|
  {
    if bits == [] then Some([])
    else
      var n := Child(t, cur, bits[0]);
      if n == -1 then None
      else if IsLeaf(t, n) then
        if cant - 1 <= 0 then Some([t.sym[n]]) else Then([t.sym[n]], ForkRun(t, 0, bits[1..], cant - 1))
      else if cant <= 0 then Some([])
      else ForkRun(t, n, bits[1..], cant)
  }

  /** With a positive count Fork's loop is the common walk. */
  lemma {:induction false} ForkRunIsRun(t: Arena, cur: int, bits: seq<bool>, cant: nat)
    requires Valid(t) && 0 <= cur < Size(t) && cant >= 1
    ensures ForkRun(t, cur, bits, cant) == Outputs(Run(t, cur, bits, cant))
    decreases |bits|
  {
    if bits != [] {
      var n := Child(t, cur, bits[0]);
      if n != -1 {
        if IsLeaf(t, n) {
          if cant > 1 {
            ForkRunIsRun(t, 0, bits[1..], cant - 1);
            OutputsPrepend([t.sym[n]], 1, Run(t, 0, bits[1..], cant - 1));
          } else {
            assert [t.sym[n]] + [] == [t.sym[n]];
          }
        } else {
          ForkRunIsRun(t, n, bits[1..], cant);
          OutputsPrepend([], 1, Run(t, n, bits[1..], cant));
          ThenNothing(Outputs(Run(t, n, bits[1..], cant)));
        }
      }
    }
  }

  /** One bit of Fork's loop, seen from the output gathered so far. */
  lemma ForkStep(t: Arena, cur: int, rest: seq<bool>, cant: int, out: seq<byte>)
    requires Valid(t) && 0 <= cur < Size(t) && rest != [] && Child(t, cur, rest[0]) != -1
    ensures var n := Child(t, cur, rest[0]);
      Then(out, ForkRun(t, cur, rest, cant)) ==
        if IsLeaf(t, n) then
          if cant - 1 <= 0 then Some(out + [t.sym[n]]) else Then(out + [t.sym[n]], ForkRun(t, 0, rest[1..], cant - 1))
        else if cant <= 0 then Some(out)
        else Then(out, ForkRun(t, n, rest[1..], cant))
  {
    var n := Child(t, cur, rest[0]);
    if IsLeaf(t, n) && cant - 1 > 0 {
      var x := ForkRun(t, 0, rest[1..], cant - 1);
      if x.Some? {
        assert out + ([t.sym[n]] + x.value) == out + [t.sym[n]] + x.value;
      }
    } else if !IsLeaf(t, n) && cant <= 0 {
      assert out + [] == out;
    }
  }

  /** Bit `bit` of byte i is the next bit of the unpacked stream, and Fork's step from it. */
  lemma ForkBit(t: Arena, data: seq<byte>, i: nat, bit: nat, cur: int, cant: int, out: seq<byte>)
    requires Valid(t) && 0 <= cur < Size(t) && i < |data| && bit < 8
    requires Child(t, cur, BitAt(data[i], bit)) != -1
    ensures var rest := Unpack(data)[8 * i + 7 - bit..];
      && rest != [] && rest[0] == BitAt(data[i], bit)
      && rest[1..] == Unpack(data)[8 * i + 7 - bit + 1..]
      && var n := Child(t, cur, rest[0]);
      Then(out, ForkRun(t, cur, rest, cant)) ==
        if IsLeaf(t, n) then
          if cant - 1 <= 0 then Some(out + [t.sym[n]]) else Then(out + [t.sym[n]], ForkRun(t, 0, rest[1..], cant - 1))
        else if cant <= 0 then Some(out)
        else Then(out, ForkRun(t, n, rest[1..], cant))
  {
    UnpackAt(data, i, 7 - bit);
    var rest := Unpack(data)[8 * i + 7 - bit..];
    ForkStep(t, cur, rest, cant, out);
  }

  /**
   * One pass of Fork decompress.c:76-86: bit `bit` of byte b = data[i]
   * walked from `current`; a leaf emits its symbol and decrements the
   * count. Not ok is the NULL dereference of a missing child.
   */
  method ForkDecodeBit(tree: Arena, ghost data: seq<byte>, ghost i: nat, b: byte, bit: nat, current: int, cantBook: int, out: seq<byte>)
    returns (ok: bool, current': int, cantBook': int, out': seq<byte>)
    requires Valid(tree) && 0 <= current < Size(tree) && i < |data| && bit < 8 && data[i] == b
    ensures ok <==> Child(tree, current, BitAt(b, bit)) != -1
    ensures !ok ==> Then(out, ForkRun(tree, current, Unpack(data)[8 * i + 7 - bit..], cantBook)) == None
    ensures ok ==> 0 <= current' < Size(tree)
    ensures ok ==> (Then(out, ForkRun(tree, current, Unpack(data)[8 * i + 7 - bit..], cantBook))
      == if cantBook' <= 0 then Some(out')
         else Then(out', ForkRun(tree, current', Unpack(data)[8 * i + 7 - bit + 1..], cantBook')))
  {
    var currentBit := BitAt(b, bit);
    var next := Child(tree, current, currentBit);
    current', cantBook', out' := current, cantBook, out;
    if next == -1 {
      UnpackAt(data, i, 7 - bit);
      return false, current', cantBook', out';
    }
    ForkBit(tree, data, i, bit, current, cantBook, out);
    ok, current' := true, next;
    if IsLeaf(tree, current') {
      out' := out' + [tree.sym[current']];
      cantBook' := cantBook' - 1;
      current' := 0;
    }
  }

  /**
   * Fork decompress.c:75-89: the eight bits of one compressed byte, most
   * significant first, leaving the loop early once the count is used up.
   */
  method ForkDecodeByte(tree: Arena, ghost data: seq<byte>, ghost i: nat, b: byte, current: int, cantBook: int, out: seq<byte>)
    returns (ok: bool, current': int, cantBook': int, out': seq<byte>)
    requires Valid(tree) && 0 <= current < Size(tree) && i < |data| && data[i] == b
    ensures !ok ==> Then(out, ForkRun(tree, current, Unpack(data)[8 * i..], cantBook)) == None
    ensures ok ==> 0 <= current' < Size(tree)
    ensures ok ==> (Then(out, ForkRun(tree, current, Unpack(data)[8 * i..], cantBook))
      == if cantBook' <= 0 then Some(out')
         else Then(out', ForkRun(tree, current', Unpack(data)[8 * i + 8..], cantBook')))
  {
    ghost var spec := Then(out, ForkRun(tree, current, Unpack(data)[8 * i..], cantBook));
    current', cantBook', out' := current, cantBook, out;
    var bit := 7;
    while bit >= 0
      invariant -1 <= bit <= 7 && 0 <= current' < Size(tree)
      invariant spec == Then(out', ForkRun(tree, current', Unpack(data)[8 * i + 7 - bit..], cantBook'))
      invariant bit < 7 ==> cantBook' > 0
    {
      ok, current', cantBook', out' := ForkDecodeBit(tree, data, i, b, bit, current', cantBook', out');
      if !ok {
        return;
      }
      if cantBook' <= 0 {
        return;
      }
      bit := bit - 1;
    }
    ok := true;
  }

  /**
   * Fork decompress.c:60-92: the bits of compressedData[..compressedSize],
   * most significant first, walked through the tree, with the count held
   * in an `int`. None is the NULL dereference of a code the tree does not
   * hold.
   */
  method DecompressBook(tree: Arena, totalCharacters: nat, compressedSize: nat, compressedData: seq<byte>)
    returns (r: Option<seq<byte>>)
    requires Valid(tree) && compressedSize <= |compressedData|
    ensures r == ForkRun(tree, 0, Unpack(compressedData[..compressedSize]), Int32Of(totalCharacters))
  {
    ghost var bits := Unpack(compressedData[..compressedSize]);
    ghost var spec := ForkRun(tree, 0, bits, Int32Of(totalCharacters));
    var current := 0;
    var cantBook: int := Int32Of(totalCharacters);
    var out: seq<byte> := [];
    var i := 0;
    ghost var stopped := false;
    assert bits[0..] == bits;
    ThenNothing(spec);
    while i < compressedSize
      invariant !stopped
      invariant 0 <= i <= compressedSize && 0 <= current < Size(tree)
      invariant spec == Then(out, ForkRun(tree, current, bits[8 * i..], cantBook))
    {
      var ok;
      ok, current, cantBook, out := ForkDecodeByte(tree, compressedData[..compressedSize], i, compressedData[i], current, cantBook, out);
      if !ok {
        return None;
      }
      if cantBook <= 0 {
        stopped := true;
        break;
      }
      i := i + 1;
    }
    if !stopped {
      assert bits[8 * compressedSize..] == [];
      assert out + [] == out;
    }
    r := Some(out);
  }

  // ---------------------------------------------------------------------------
  // Hilos: processSegment

  /** The bytes a segment decodes to and the number of compressed bytes read. */
  datatype Segment = Segment(buffer: seq<byte>, byteLen: nat)

  /** One bit of the common walk, seen from the output gathered so far. */
  lemma RunStep(t: Arena, cur: int, rest: seq<bool>, remaining: nat, emitted: seq<byte>, used: nat)
    requires Valid(t) && 0 <= cur < Size(t) && remaining > 0 && rest != [] && Child(t, cur, rest[0]) != -1
    ensures var n := Child(t, cur, rest[0]);
      Prepend(emitted, used, Run(t, cur, rest, remaining)) ==
        if IsLeaf(t, n) then Prepend(emitted + [t.sym[n]], used + 1, Run(t, 0, rest[1..], remaining - 1))
        else Prepend(emitted, used + 1, Run(t, n, rest[1..], remaining))
  {
    var n := Child(t, cur, rest[0]);
    if IsLeaf(t, n) {
      PrependPrepend(emitted, used, [t.sym[n]], 1, Run(t, 0, rest[1..], remaining - 1));
    } else {
      PrependPrepend(emitted, used, [], 1, Run(t, n, rest[1..], remaining));
      assert emitted + [] == emitted;
    }
  }

  /** Bit k of byte i, counted from the most significant, is bit 8i+k of the unpacked stream. */
  lemma NextBit(data: seq<byte>, i: nat, k: nat, used: nat)
    requires i < |data| && k < 8 && used == 8 * i + k
    ensures var rest := Unpack(data)[used..];
      rest != [] && rest[0] == BitAt(data[i], 7 - k) && rest[1..] == Unpack(data)[used + 1..]
  {
    UnpackAt(data, i, k);
  }

  /**
   * One pass of Hilos decompress.c:90-99: bit bitPos of byte b = data[i],
   * counted from the most significant, walked from `cursor`; a leaf emits
   * its symbol (kept in mode 1) and decrements the count. Not ok is a
   * missing child.
   */
  method HilosDecodeBit(tree: Arena, ghost file: seq<byte>, ghost offset: nat, ghost i: nat, b: byte, bitPos: nat, ghost used: nat,
                        cursor: int, remaining: nat, ghost emitted: seq<byte>, buffer: seq<byte>, mode: int)
    returns (ok: bool, cursor': int, remaining': nat, ghost emitted': seq<byte>, buffer': seq<byte>)
    requires Valid(tree) && 0 <= cursor < Size(tree) && remaining > 0
    requires offset <= i < |file| && bitPos < 8 && used == 8 * (i - offset) + bitPos && file[i] == b
    requires buffer == if mode == 1 then emitted else []
    ensures ok <==> Child(tree, cursor, BitAt(b, 7 - bitPos)) != -1
    ensures !ok ==> Prepend(emitted, used, Run(tree, cursor, Unpack(file[offset..])[used..], remaining)) == None
    ensures ok ==> 0 <= cursor' < Size(tree) && remaining' <= remaining
    ensures ok ==> buffer' == if mode == 1 then emitted' else []
    ensures ok ==> (Prepend(emitted, used, Run(tree, cursor, Unpack(file[offset..])[used..], remaining))
                    == Prepend(emitted', used + 1, Run(tree, cursor', Unpack(file[offset..])[used + 1..], remaining')))
  {
    ghost var data := file[offset..];
    assert data[i - offset] == b;
    NextBit(data, i - offset, bitPos, used);
    var bit := BitAt(b, 7 - bitPos);
    var next := Child(tree, cursor, bit);
    cursor', remaining', emitted', buffer' := cursor, remaining, emitted, buffer;
    if next == -1 {
      return false, cursor', remaining', emitted', buffer';
    }
    RunStep(tree, cursor, Unpack(data)[used..], remaining, emitted, used);
    ok, cursor' := true, next;
    if IsLeaf(tree, cursor') {
      if mode == 1 {
        buffer' := buffer' + [tree.sym[cursor']];
      }
      emitted' := emitted' + [tree.sym[cursor']];
      remaining' := remaining' - 1;
      cursor' := 0;
    }
  }

  /**
   * Hilos decompress.c:78-103 on the archive bytes from offset on: a byte is
   * fetched whenever its eight bits are spent, and reading stops when
   * symbolCount symbols are out or the file ends. Mode 1 keeps the symbols,
   * mode 0 (the scan for the segment's length) only counts them.
   */
  method ProcessSegment(tree: Arena, file: seq<byte>, symbolCount: nat, offset: nat, mode: int)
    returns (r: Option<Segment>)
    requires Valid(tree) && offset <= |file|
    ensures var run := Run(tree, 0, Unpack(file[offset..]), symbolCount);
      && r.Some? == run.Some?
      && (r.Some? ==> (r.value.byteLen == CeilDiv8(run.value.used)
                    && r.value.buffer == if mode == 1 then run.value.out else []))
  {
    ghost var bits := Unpack(file[offset..]);
    ghost var spec := Run(tree, 0, bits, symbolCount);
    ghost var used: nat := 0;
    ghost var emitted: seq<byte> := [];
    var pos := offset;
    var remaining := symbolCount;
    var b: byte := 0;
    var bitPos := 8;
    var cursor := 0;
    var buffer: seq<byte> := [];
    assert bits[0..] == bits;
    PrependNothing(spec);
    while remaining > 0
      invariant offset <= pos <= |file| && 0 <= bitPos <= 8 && 0 <= cursor < Size(tree)
      invariant used + 8 == 8 * (pos - offset) + bitPos
      invariant bitPos < 8 ==> pos > offset && b == file[pos - 1]
      invariant spec == Prepend(emitted, used, Run(tree, cursor, bits[used..], remaining))
      invariant buffer == if mode == 1 then emitted else []
      decreases |file| - pos, remaining, 8 - bitPos
    {
      if bitPos == 8 {
        if pos >= |file| {
          break;
        }
        b := file[pos];
        pos := pos + 1;
        bitPos := 0;
      }
      var ok;
      ok, cursor, remaining, emitted, buffer :=
        HilosDecodeBit(tree, file, offset, pos - 1, b, bitPos, used, cursor, remaining, emitted, buffer, mode);
      if !ok {
        return None;
      }
      bitPos := bitPos + 1;
      used := used + 1;
    }
    assert emitted + [] == emitted;
    r := Some(Segment(buffer, pos - offset));
  }

  // ---------------------------------------------------------------------------
  // Serial: the do-while of decompress

  const Wrap32: nat := 0x1_0000_0000

  /** `cantBook--` on an unsigned int: zero wraps to the largest value. */
  function Dec32(n: nat): (r: nat)
    requires n < Wrap32
    ensures r < Wrap32 && (n > 0 ==> r == n - 1) && (n == 0 ==> r == Wrap32 - 1)
  {
    (n + Wrap32 - 1) % Wrap32
  }

  /**
   * Serial decompress.c:59-87 on the bits from the record's first payload
   * byte on: every pass of the do-while walks one bit before the count is
   * tested, so even a zero count walks a bit, and a leaf reached then wraps
   * the unsigned count. None is a missing child, or the archive ending where
   * the next byte is needed.
   */
  function SerialRun(t: Arena, cur: int, bits: seq<bool>, cant: nat): (r: Option<Decoded>)
    requires Valid(t) && 0 <= cur < Size(t) && cant < Wrap32
    ensures r.Some? ==> 1 <= r.value.used <= |bits|
    ensures r.Some? && cant >= 1 ==> |r.value.out| <= cant
    decreases |bits|
  {
    if bits == [] then None
    else
      var n := Child(t, cur, bits[0]);
      if n == -1 then None
      else if IsLeaf(t, n) then
        if Dec32(cant) == 0 then Some(Decoded([t.sym[n]], 1))
        else Prepend([t.sym[n]], 1, SerialRun(t, 0, bits[1..], Dec32(cant)))
      else if cant == 0 then Some(Decoded([], 1))
      else Prepend([], 1, SerialRun(t, n, bits[1..], cant))
  }

  /** For a record that holds symbols, encoded in full, Serial's loop is the common walk. */
  lemma {:induction false} SerialRunIsRun(t: Arena, cur: int, bits: seq<bool>, cant: nat)
    requires Valid(t) && 0 <= cur < Size(t) && 1 <= cant < Wrap32
    requires Run(t, cur, bits, cant).Some? && |Run(t, cur, bits, cant).value.out| == cant
    ensures SerialRun(t, cur, bits, cant) == Run(t, cur, bits, cant)
    decreases |bits|
  {
    var n := Child(t, cur, bits[0]);
    if IsLeaf(t, n) {
      if cant > 1 {
        SerialRunIsRun(t, 0, bits[1..], cant - 1);
      } else {
        assert [t.sym[n]] + [] == [t.sym[n]];
      }
    } else {
      SerialRunIsRun(t, n, bits[1..], cant);
    }
  }

  /**
   * Whatever the tree and the bits, a record with a zero count never decodes
   * to nothing while reading nothing: when it yields no symbol it has read
   * exactly one bit, and so the byte holding it.
   */
  lemma EmptyRecordReadsByte(t: Arena, bits: seq<bool>)
    requires Valid(t)
    ensures SerialRun(t, 0, bits, 0) != Some(Decoded([], 0))
    ensures var r := SerialRun(t, 0, bits, 0); r.Some? && r.value.out == [] ==> r.value.used == 1
  {
    if bits != [] {
      var n := Child(t, 0, bits[0]);
      if n != -1 && IsLeaf(t, n) {
        var rest := SerialRun(t, 0, bits[1..], Dec32(0));
        if rest.Some? {
          assert |Prepend([t.sym[n]], 1, rest).value.out| >= 1;
        }
      }
    }
  }

  /** The corrected record decoder: a record with a zero count reads nothing. */
  function SerialRecordRun(t: Arena, bits: seq<bool>, cant: nat): (r: Option<Decoded>)
    requires Valid(t) && cant < Wrap32
    ensures cant == 0 ==> r == Some(Decoded([], 0))
  {
    if cant == 0 then Some(Decoded([], 0)) else SerialRun(t, 0, bits, cant)
  }

  /** The corrected decoder restores every encoded record, empty or not, taking exactly its bits. */
  lemma SerialRecordRunEncode(t: Arena, codes: seq<seq<bool>>, data: seq<byte>, rest: seq<bool>)
    requires Valid(t) && |codes| == 256 && |data| < Wrap32
    requires forall i :: 0 <= i < |data| ==> Decodes(t, codes[data[i]], data[i])
    ensures SerialRecordRun(t, Encode(codes, data) + rest, |data|) == Some(Decoded(data, |Encode(codes, data)|))
  {
    RunEncodeExact(t, codes, data, rest);
    if |data| > 0 {
      SerialRunIsRun(t, 0, Encode(codes, data) + rest, |data|);
    }
  }

  /** One pass of Serial's do-while, seen from the output gathered so far. */
  lemma SerialStep(t: Arena, bits: seq<bool>, used: nat, cur: int, cant: nat, emitted: seq<byte>)
    requires Valid(t) && 0 <= cur < Size(t) && cant < Wrap32 && used < |bits| && Child(t, cur, bits[used]) != -1
    ensures var n := Child(t, cur, bits[used]);
      var leaf := IsLeaf(t, n);
      var emitted' := if leaf then emitted + [t.sym[n]] else emitted;
      var cant' := if leaf then Dec32(cant) else cant;
      Prepend(emitted, used, SerialRun(t, cur, bits[used..], cant)) ==
        if cant' == 0 then Some(Decoded(emitted', used + 1))
        else Prepend(emitted', used + 1, SerialRun(t, if leaf then 0 else n, bits[used + 1..], cant'))
  {
    var rest := bits[used..];
    assert rest[1..] == bits[used + 1..];
    var n := Child(t, cur, rest[0]);
    if IsLeaf(t, n) {
      PrependPrepend(emitted, used, [t.sym[n]], 1, SerialRun(t, 0, rest[1..], Dec32(cant)));
    } else {
      PrependPrepend(emitted, used, [], 1, SerialRun(t, n, rest[1..], cant));
      assert emitted + [] == emitted;
    }
  }

  /**
   * One bit of Serial's do-while (decompress.c:65-85): the bit `7 - j` of
   * `temp` moves the walk to a child; a leaf emits its symbol, counts
   * `cantBook` down and returns the walk to the root.
   */
  method SerialBit(tree: Arena, ghost bits: seq<bool>, ghost used: nat, temp: byte, j: nat,
                   node: int, cant: nat, out: seq<byte>)
    returns (ok: bool, node': int, cant': nat, out': seq<byte>, emitted: bool)
    requires Valid(tree) && 0 <= node < Size(tree) && cant < Wrap32 && j < 8
    requires used < |bits| && bits[used] == BitAt(temp, 7 - j)
    ensures ok <==> Child(tree, node, bits[used]) != -1
    ensures !ok ==> Prepend(out, used, SerialRun(tree, node, bits[used..], cant)) == None
    ensures ok ==> 0 <= node' < Size(tree) && cant' < Wrap32 && |out'| == |out| + (if emitted then 1 else 0)
    ensures ok ==> (Prepend(out, used, SerialRun(tree, node, bits[used..], cant)) ==
      if cant' == 0 then Some(Decoded(out', used + 1))
      else Prepend(out', used + 1, SerialRun(tree, node', bits[used + 1..], cant')))
  {
    var child := Child(tree, node, BitAt(temp, 7 - j));
    node', cant', out', emitted := node, cant, out, false;
    if child == -1 {
      return false, node', cant', out', emitted;
    }
    SerialStep(tree, bits, used, node, cant, out);
    ok := true;
    node' := child;
    if IsLeaf(tree, node') {
      out' := out + [tree.sym[node']];
      cant' := Dec32(cant);
      emitted := true;
      node' := 0;
    }
  }

  /**
   * Serial decompress.c:59-87: the first payload byte is read, then the
   * do-while walks bits, the leftmost first, reading the next byte after
   * every eighth; `characters` falls with every symbol emitted. The
   * 64-bit shift register `bits` is modelled by the byte last read and the
   * number j of its bits already shifted out.
   */
  method SerialPayload(tree: Arena, archive: seq<byte>, pos: nat, cantBook: nat, characters: int)
    returns (r: Option<Segment>, charactersLeft: int)
    requires Valid(tree) && pos <= |archive| && cantBook < Wrap32
    ensures var run := SerialRun(tree, 0, Unpack(archive[pos..]), cantBook);
      && r.Some? == run.Some?
      && (r.Some? ==> (r.value == Segment(run.value.out, CeilDiv8(run.value.used))
                    && charactersLeft == characters - |run.value.out|))
  {
    ghost var bits := Unpack(archive[pos..]);
    ghost var spec := SerialRun(tree, 0, bits, cantBook);
    charactersLeft := characters;
    if pos >= |archive| {
      return None, charactersLeft;
    }
    var temp := archive[pos];
    var next := pos + 1;
    var j := 0;
    var newNode := 0;
    var cant: nat := cantBook;
    var out: seq<byte> := [];
    ghost var used: nat := 0;
    assert bits[0..] == bits;
    PrependNothing(spec);
    // `do { ... } while (cantBook)`: the test at the bottom always holds,
    // since a zero count has already left through the break inside.
    while true
      invariant pos < next <= |archive| && 0 <= j < 8 && 0 <= newNode < Size(tree) && cant < Wrap32
      invariant used == 8 * (next - pos - 1) + j && temp == archive[next - 1]
      invariant spec == Prepend(out, used, SerialRun(tree, newNode, bits[used..], cant))
      invariant charactersLeft == characters - |out|
      decreases |archive| - next, 8 - j
    {
      NextBit(archive[pos..], next - 1 - pos, j, used);
      var ok, emitted;
      ok, newNode, cant, out, emitted := SerialBit(tree, bits, used, temp, j, newNode, cant, out);
      if !ok {
        return None, charactersLeft;
      }
      j := j + 1;
      if emitted {
        charactersLeft := charactersLeft - 1;
      }
      used := used + 1;
      if cant == 0 {
        assert spec == Some(Decoded(out, used));
        return Some(Segment(out, next - pos)), charactersLeft;
      }
      if j == 8 {
        if next >= |archive| {
          assert bits[used..] == [];
          return None, charactersLeft;
        }
        temp := archive[next];
        next := next + 1;
        j := 0;
      }
    }
  }
}
