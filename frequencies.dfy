/**
 * The symbol-ordered frequency list shared by Fork (`CountCharacter`,
 * compress.c:87-116) and Serial (`contarCaracter`, compress.c:103-124): a
 * list of leaves kept strictly ascending by symbol, one per distinct byte
 * read, each holding how often it was read.
 */
module Frequencies {
  import opened Bits
  import opened Huffman

  /** Only leaves, each counted at least once, strictly ascending by symbol. */
  predicate CountList(list: seq<HTree>)
  {
    && (forall i :: 0 <= i < |list| ==> list[i].Leaf? && list[i].weight >= 1)
    && (forall i, j :: 0 <= i < j < |list| ==> list[i].sym < list[j].sym)
  }

  /** The count the list holds for c; zero when c has no node. */
  function CountOf(list: seq<HTree>, c: byte): nat
  {
    if list == [] then 0
    else if list[0].Leaf? && list[0].sym == c then list[0].weight
    else CountOf(list[1..], c)
  }

  /** How many times c occurs in data. */
  function Occurrences(data: seq<byte>, c: byte): nat
  {
    if data == [] then 0
    else Occurrences(data[..|data| - 1], c) + (if data[|data| - 1] == c then 1 else 0)
  }

  function Elements(data: seq<byte>): set<byte>
  {
    set i | 0 <= i < |data| :: data[i]
  }

  /** The list after one byte c is counted: its node's count goes up by one, or a node with count 1 is inserted in order. */
  function Counted(list: seq<HTree>, c: byte): seq<HTree>
  {
    if list == [] then [Leaf(c, 1)]
    else if list[0].Leaf? && list[0].sym < c then [list[0]] + Counted(list[1..], c)
    else if list[0].Leaf? && list[0].sym == c then [Leaf(c, list[0].weight + 1)] + list[1..]
    else [Leaf(c, 1)] + list
  }

  /** Counting keeps the list strictly ascending by symbol. */
  lemma {:induction false} CountedSorted(list: seq<HTree>, c: byte)
    requires CountList(list)
    ensures CountList(Counted(list, c))
  {
    if list != [] && list[0].sym < c {
      assert CountList(list[1..]);
      CountedSorted(list[1..], c);
      CountedAbove(list[1..], c, list[0].sym);
    }
  }

  /** A bound below c and below every symbol of the list stays below every symbol after counting c. */
  lemma {:induction false} CountedAbove(list: seq<HTree>, c: byte, b: int)
    requires CountList(list)
    requires b < c && forall i :: 0 <= i < |list| ==> b < list[i].sym
    ensures forall j :: 0 <= j < |Counted(list, c)| ==> Counted(list, c)[j].Leaf? && Counted(list, c)[j].weight >= 1 && b < Counted(list, c)[j].sym
  {
    if list != [] && list[0].sym < c {
      assert CountList(list[1..]);
      CountedAbove(list[1..], c, b);
    }
  }

  /** Counting c raises c's count by one and leaves every other count as it was. */
  lemma {:induction false} CountedCounts(list: seq<HTree>, c: byte, s: byte)
    requires CountList(list)
    ensures CountOf(Counted(list, c), s) == CountOf(list, s) + (if s == c then 1 else 0)
  {
    if list == [] {
    } else if list[0].sym < c {
      assert CountList(list[1..]);
      CountedCounts(list[1..], c, s);
      assert ([list[0]] + Counted(list[1..], c))[1..] == Counted(list[1..], c);
    } else if list[0].sym == c {
      CountListFirst(list);
      assert ([Leaf(c, list[0].weight + 1)] + list[1..])[1..] == list[1..];
    } else {
      CountListAbsent(list, c);
      assert ([Leaf(c, 1)] + list)[1..] == list;
    }
  }

  /** The list grows by one node exactly when c had none. */
  lemma {:induction false} CountedLength(list: seq<HTree>, c: byte)
    requires CountList(list)
    ensures |Counted(list, c)| == |list| + (if CountOf(list, c) == 0 then 1 else 0)
  {
    if list == [] {
    } else if list[0].sym < c {
      assert CountList(list[1..]);
      CountedLength(list[1..], c);
    } else if list[0].sym == c {
    } else {
      CountListAbsent(list, c);
    }
  }

  /** One more unit of weight in all, and c among the symbols. */
  lemma {:induction false} CountedTotals(list: seq<HTree>, c: byte)
    requires CountList(list)
    ensures ListWeight(Counted(list, c)) == ListWeight(list) + 1
    ensures ListSyms(Counted(list, c)) == ListSyms(list) + {c}
  {
    if list == [] {
      ListSingleton(Leaf(c, 1));
    } else {
      assert list == [list[0]] + list[1..];
      ListWeightAppend([list[0]], list[1..]);
      ListSingleton(list[0]);
      if list[0].sym < c {
        assert CountList(list[1..]);
        CountedTotals(list[1..], c);
        ListWeightAppend([list[0]], Counted(list[1..], c));
      } else if list[0].sym == c {
        ListWeightAppend([Leaf(c, list[0].weight + 1)], list[1..]);
        ListSingleton(Leaf(c, list[0].weight + 1));
      } else {
        ListWeightAppend([Leaf(c, 1)], list);
        ListSingleton(Leaf(c, 1));
      }
    }
  }

  /** In an ascending list the head's count is the only one for its symbol. */
  lemma {:induction false} CountListFirst(list: seq<HTree>)
    requires CountList(list) && list != []
    ensures forall s :: CountOf(list, s) == if s == list[0].sym then list[0].weight else CountOf(list[1..], s)
    ensures CountOf(list[1..], list[0].sym) == 0
  {
    CountListAbsent(list[1..], list[0].sym);
  }

  /** A symbol below every node of an ascending list has no count in it. */
  lemma {:induction false} CountListAbsent(list: seq<HTree>, c: byte)
    requires CountList(list)
    requires forall i :: 0 <= i < |list| ==> c < list[i].sym
    ensures CountOf(list, c) == 0
  {
    if list != [] {
      CountListAbsent(list[1..], c);
    }
  }

  /**
   * `CountCharacter` / `contarCaracter`: walks past the nodes with a smaller
   * symbol, then bumps the node it stops at if it holds the byte, or splices
   * a new node with count 1 in front of it.
   */
  method CountCharacter(list: seq<HTree>, character: byte) returns (r: seq<HTree>)
    ensures r == Counted(list, character)
  {
    var i := 0;
    while i < |list| && list[i].Leaf? && list[i].sym < character
      invariant 0 <= i <= |list|
      invariant Counted(list, character) == list[..i] + Counted(list[i..], character)
    {
      assert list[i..][1..] == list[i + 1..];
      assert list[..i + 1] == list[..i] + [list[i]];
      i := i + 1;
    }
    if i < |list| && list[i].Leaf? && list[i].sym == character {
      r := list[..i] + [Leaf(character, list[i].weight + 1)] + list[i + 1..];
      assert list[i..][1..] == list[i + 1..];
    } else {
      r := list[..i] + [Leaf(character, 1)] + list[i..];
    }
  }

  /** The list after every byte of data is counted in order. */
  function CountAll(list: seq<HTree>, data: seq<byte>): seq<HTree>
  {
    if data == [] then list else Counted(CountAll(list, data[..|data| - 1]), data[|data| - 1])
  }

  /** After counting data each symbol's count has grown by its number of occurrences, and the counts grow by |data| in all. */
  lemma {:induction false} CountAllProperties(list: seq<HTree>, data: seq<byte>)
    requires CountList(list)
    ensures CountList(CountAll(list, data))
    ensures forall s :: CountOf(CountAll(list, data), s) == CountOf(list, s) + Occurrences(data, s)
    ensures ListWeight(CountAll(list, data)) == ListWeight(list) + |data|
    ensures ListSyms(CountAll(list, data)) == ListSyms(list) + Elements(data)
  {
    if data != [] {
      var d := data[..|data| - 1];
      var prev := CountAll(list, d);
      CountAllProperties(list, d);
      CountedSorted(prev, data[|data| - 1]);
      CountedTotals(prev, data[|data| - 1]);
      forall s ensures CountOf(CountAll(list, data), s) == CountOf(list, s) + Occurrences(data, s) {
        CountedCounts(prev, data[|data| - 1], s);
      }
      assert Elements(data) == Elements(d) + {data[|data| - 1]} by {
        assert data == d + [data[|data| - 1]];
        forall x | x in Elements(data) ensures x in Elements(d) + {data[|data| - 1]} {
          var i :| 0 <= i < |data| && data[i] == x;
          if i < |d| { assert d[i] == x; }
        }
        forall x | x in Elements(d) ensures x in Elements(data) {
          var i :| 0 <= i < |d| && d[i] == x;
          assert data[i] == x;
        }
      }
    }
  }

  /**
   * The merge of the count list of data: no tree for empty data, otherwise
   * one tree over exactly the bytes of data whose weight is their number.
   */
  lemma CountedTree(data: seq<byte>)
    ensures |Merged(CountAll([], data))| == if data == [] then 0 else 1
    ensures data != [] ==> var ht := Merged(CountAll([], data))[0];
      LeafSyms(ht) == Elements(data) && WellWeighted(ht) && ht.weight == |data|
  {
    var list := CountAll([], data);
    CountAllProperties([], data);
    assert AllWellWeighted(list);
    MergedProperties(list);
    if data == [] {
      assert list == [];
    } else {
      assert list != [];
      var m := Merged(list);
      assert m[1..] == [];
    }
  }

  lemma {:induction false} CountAllAppend(list: seq<HTree>, a: seq<byte>, b: seq<byte>)
    ensures CountAll(list, a + b) == CountAll(CountAll(list, a), b)
    decreases |b|
  {
    if b == [] {
      assert a + b == a;
    } else {
      assert (a + b)[..|a + b| - 1] == a + b[..|b| - 1];
      CountAllAppend(list, a, b[..|b| - 1]);
    }
  }
}
