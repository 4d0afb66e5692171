/**
  Sequences of cell coordinates: the `List<Vector3Int>` reuse pool and the
  enumeration orders of the unordered `HashSet` and `Dictionary` key
  collections that the chunk manager iterates over.
 */
module Seqs {
  import opened Geometry

  /** No coordinate occurs twice. */
  predicate Distinct(s: seq<Coord>) {
    forall i, j :: 0 <= i < j < |s| ==> s[i] != s[j]
  }

  /** The set of coordinates occurring in `s`. */
  function Elems(s: seq<Coord>): set<Coord> {
    set c | c in s
  }

  /**
    `s` is one possible enumeration order of the unordered collection `xs`:
    it lists every member exactly once and nothing else.
   */
  predicate Enumerates(s: seq<Coord>, xs: set<Coord>) {
    Distinct(s) && Elems(s) == xs
  }

  /** A duplicate-free sequence has as many elements as its set. */
  lemma {:induction false} DistinctCard(s: seq<Coord>)
    requires Distinct(s)
    ensures |Elems(s)| == |s|
  {
    if s != [] {
      var t := s[1..];
      assert Distinct(t);
      DistinctCard(t);
      assert Elems(s) == Elems(t) + {s[0]};
      assert s[0] !in Elems(t);
    }
  }

  /** An enumeration of a collection has exactly one entry per member. */
  lemma EnumerationLength(s: seq<Coord>, xs: set<Coord>)
    requires Enumerates(s, xs)
    ensures |s| == |xs|
  {
    DistinctCard(s);
  }

  /**
    `List<T>.Remove(x)`: drops the first occurrence of `x`, keeping the order
    of the rest; a list without `x` is returned unchanged.
   */
  function RemoveFirst(s: seq<Coord>, x: Coord): (r: seq<Coord>)
    ensures x !in s ==> r == s
    ensures multiset(r) == multiset(s) - multiset{x}
  {
    if s == [] then []
    else if s[0] == x then assert s == [s[0]] + s[1..]; s[1..]
    else
      var r := [s[0]] + RemoveFirst(s[1..], x);
      assert s == [s[0]] + s[1..];
      r
  }

  /** A prefix and a suffix of a non-empty sequence, seen from its tail. */
  lemma SliceOfTail(s: seq<Coord>, k: nat)
    requires k + 1 < |s|
    ensures s[..k + 1] == [s[0]] + s[1..][..k]
    ensures s[k + 2..] == s[1..][k + 1..]
  {
  }

  /** Removing a coordinate other than the head keeps the head in front. */
  lemma RemoveFirstCons(s: seq<Coord>, x: Coord)
    requires s != [] && s[0] != x
    ensures RemoveFirst(s, x) == [s[0]] + RemoveFirst(s[1..], x)
  {
  }

  /**
    `RemoveFirst` cuts out exactly the first occurrence of `x`, at index `i`:
    the cells before it and the cells after it stay, in their order.
   */
  lemma {:induction false} RemoveFirstSplit(s: seq<Coord>, x: Coord, i: nat)
    requires i < |s| && s[i] == x && x !in s[..i]
    ensures RemoveFirst(s, x) == s[..i] + s[i + 1..]
  {
    if i == 0 {
      assert s[..0] + s[1..] == s[1..];
    } else {
      var t := s[1..];
      SliceOfTail(s, i - 1);
      assert s[0] in s[..i];
      RemoveFirstSplit(t, x, i - 1);
      RemoveFirstCons(s, x);
      assert [s[0]] + (t[..i - 1] + t[i..]) == ([s[0]] + t[..i - 1]) + t[i..];
    }
  }

  lemma DistinctCons(h: Coord, t: seq<Coord>)
    requires Distinct(t) && h !in t
    ensures Distinct([h] + t)
  {
    var r := [h] + t;
    forall i, j | 0 <= i < j < |r| ensures r[i] != r[j] {
      assert r[j] == t[j - 1];
      if i > 0 {
        assert r[i] == t[i - 1];
      }
    }
  }

  /** Removal from a duplicate-free sequence takes out exactly that coordinate. */
  lemma {:induction false} RemoveFirstElems(s: seq<Coord>, x: Coord)
    requires Distinct(s)
    ensures Elems(RemoveFirst(s, x)) == Elems(s) - {x}
  {
    if s != [] {
      var t := s[1..];
      assert Elems(s) == Elems(t) + {s[0]};
      assert s[0] !in Elems(t);
      if s[0] != x {
        RemoveFirstElems(t, x);
        assert Elems(RemoveFirst(s, x)) == Elems(RemoveFirst(t, x)) + {s[0]};
      }
    }
  }

  /** Removal keeps a duplicate-free sequence duplicate-free. */
  lemma {:induction false} RemoveFirstDistinct(s: seq<Coord>, x: Coord)
    requires Distinct(s)
    ensures Distinct(RemoveFirst(s, x))
  {
    if s != [] && s[0] != x {
      var t := s[1..];
      assert Distinct(t);
      RemoveFirstDistinct(t, x);
      RemoveFirstElems(t, x);
      var rt := RemoveFirst(t, x);
      assert s[0] !in Elems(rt);
      DistinctCons(s[0], rt);
      assert RemoveFirst(s, x) == [s[0]] + rt;
    }
  }

  /** On a duplicate-free pool, removal takes out exactly that coordinate and keeps the pool duplicate-free. */
  lemma RemoveFirstFromDistinct(s: seq<Coord>, x: Coord)
    requires Distinct(s)
    ensures Distinct(RemoveFirst(s, x))
    ensures Elems(RemoveFirst(s, x)) == Elems(s) - {x}
  {
    RemoveFirstElems(s, x);
    RemoveFirstDistinct(s, x);
  }
}
