/**
 * The growable buffers of the source: Fork's `compressedData`
 * (compress.c:142-144, 178-183, 193-198), Hilos's `buf` (compress.c:94-96,
 * 106, 115) and Serial's `caracteres` (compress.c:141-150). Each starts with
 * a fixed capacity and doubles it just before a write that would not fit.
 */
module Buffers {

  class DoublingBuffer<T(0)> {
    /** The allocation; its length is the capacity (`bufferSize`, `cap`, `capacidadArray`). */
    var data: array<T>
    /** The number of elements written (`bufferIndex`, `sz`, `indiceCaracter`). */
    var size: nat
    ghost var Contents: seq<T>

    ghost predicate Valid()
      reads this, data
    {
      1 <= data.Length && size <= data.Length && Contents == data[..size]
    }

    constructor (capacity: nat)
      requires capacity >= 1
      ensures Valid() && fresh(data)
      ensures data.Length == capacity && Contents == []
    {
      data := new T[capacity];
      size := 0;
      Contents := [];
    }

    /**
     * A write at index `size`: if it is not below the capacity the capacity
     * doubles first, so the write is always in bounds.
     */
    method Push(x: T)
      requires Valid()
      modifies this, data
      ensures Valid()
      ensures Contents == old(Contents) + [x]
      ensures size == old(size) + 1
      ensures data.Length == if old(size) >= old(data.Length) then 2 * old(data.Length) else old(data.Length)
      ensures old(size) < old(data.Length) ==> data == old(data)
      ensures old(size) >= old(data.Length) ==> fresh(data)
    {
      if size >= data.Length {
        var bigger := new T[2 * data.Length];
        var i := 0;
        while i < size
          invariant size == data.Length && bigger.Length == 2 * data.Length
          invariant 0 <= i <= size
          invariant Contents == data[..size]
          modifies bigger
          invariant bigger[..i] == data[..i]
        {
          bigger[i] := data[i];
          i := i + 1;
        }
        assert bigger[..size] == data[..size];
        data := bigger;
      }
      assert Contents == data[..size];
      data[size] := x;
      assert data[..size + 1] == Contents + [x];
      size := size + 1;
      Contents := Contents + [x];
    }
  }
}
