/**
  Python's `list.sort(key=lambda w: w.geometry[0][0])` on a list of words:
  a stable sort by the left edge `xMin`. Stability is stated through
  `WithXMin`: for every left edge `x`, the words with that left edge appear in
  the output in the same order as in the input.
 */
module XOrder {
  import opened Geometry

  ghost predicate SortedByXMin(s: seq<Word>) {
    forall i, j :: 0 <= i < j < |s| ==> s[i].box.xMin <= s[j].box.xMin
  }

  /** The words of `s` whose left edge is `x`, in their order in `s`. */
  function WithXMin(s: seq<Word>, x: real): seq<Word>
  {
    if s == [] then []
    else (if s[0].box.xMin == x then [s[0]] else []) + WithXMin(s[1..], x)
  }

  /** `a` and `b` hold the same words, and equal left edges appear in the same order. */
  ghost predicate SameTies(a: seq<Word>, b: seq<Word>) {
    forall x :: WithXMin(a, x) == WithXMin(b, x)
  }

  /** Places `w` in front of the first word of `s` that does not start left of it. */
  function Insert(w: Word, s: seq<Word>): (r: seq<Word>)
    requires SortedByXMin(s)
    ensures SortedByXMin(r)
    ensures multiset(r) == multiset(s) + multiset{w}
    ensures r[0] == w || (s != [] && r[0] == s[0])
    decreases |s|
  {
    if s == [] || w.box.xMin <= s[0].box.xMin then
      ConsSorted(w, s);
      [w] + s
    else
      var t := Insert(w, s[1..]);
      assert s == [s[0]] + s[1..];
      ConsSorted(s[0], t);
      [s[0]] + t
  }

  /** A word no further right than the head of a sorted sequence can be put in front of it. */
  lemma ConsSorted(e: Word, t: seq<Word>)
    requires SortedByXMin(t)
    requires t != [] ==> e.box.xMin <= t[0].box.xMin
    ensures SortedByXMin([e] + t)
  {
    var r := [e] + t;
    forall i, j | 0 <= i < j < |r|
      ensures r[i].box.xMin <= r[j].box.xMin
    {
      if i == 0 {
        assert r[j] == t[j - 1];
        if j > 1 {
          assert t[0].box.xMin <= t[j - 1].box.xMin;
        }
      } else {
        assert r[i] == t[i - 1] && r[j] == t[j - 1];
      }
    }
  }

  /** Unfolds `WithXMin` on a sequence given as head and tail. */
  lemma WithXMinCons(e: Word, t: seq<Word>, x: real)
    ensures WithXMin([e] + t, x) == (if e.box.xMin == x then [e] else []) + WithXMin(t, x)
  {
    assert ([e] + t)[1..] == t;
  }

  /** Inserting `w` puts it ahead of every word that shares its left edge. */
  lemma {:induction false} InsertTies(w: Word, s: seq<Word>, x: real)
    requires SortedByXMin(s)
    ensures WithXMin(Insert(w, s), x) == (if w.box.xMin == x then [w] else []) + WithXMin(s, x)
    decreases |s|
  {
    if s == [] || w.box.xMin <= s[0].box.xMin {
      assert Insert(w, s) == [w] + s;
      WithXMinCons(w, s, x);
    } else {
      var t := Insert(w, s[1..]);
      assert Insert(w, s) == [s[0]] + t;
      var rest := WithXMin(s[1..], x);
      InsertTies(w, s[1..], x);
      WithXMinCons(s[0], t, x);
      WithXMinCons(s[0], s[1..], x);
      assert [s[0]] + s[1..] == s;
      if s[0].box.xMin == x {
        assert WithXMin(t, x) == rest;
        assert WithXMin(Insert(w, s), x) == [s[0]] + rest;
      } else {
        assert WithXMin(Insert(w, s), x) == WithXMin(t, x);
        assert WithXMin(s, x) == rest;
      }
    }
  }

  /** Insertion sort by left edge; stable because `Insert` goes before equal keys. */
  function SortByXMin(s: seq<Word>): (r: seq<Word>)
    ensures SortedByXMin(r)
    ensures multiset(r) == multiset(s)
    ensures SameTies(r, s)
  {
    if s == [] then []
    else
      var t := SortByXMin(s[1..]);
      var r := Insert(s[0], t);
      assert s == [s[0]] + s[1..];
      forall x
        ensures WithXMin(r, x) == WithXMin(s, x)
      {
        InsertTies(s[0], t, x);
      }
      r
  }

  lemma {:induction false} WithXMinMember(s: seq<Word>, x: real, k: nat)
    requires k < |WithXMin(s, x)|
    ensures WithXMin(s, x)[k] in s && WithXMin(s, x)[k].box.xMin == x
    decreases |s|
  {
    var p := if s[0].box.xMin == x then [s[0]] else [];
    if k >= |p| {
      WithXMinMember(s[1..], x, k - |p|);
    }
  }

  lemma WithXMinHead(s: seq<Word>)
    requires s != []
    ensures WithXMin(s, s[0].box.xMin) != []
    ensures WithXMin(s, s[0].box.xMin)[0] == s[0]
  {
  }

  /** Two sorted sequences with the same ties start with the same word. */
  lemma SortedSameTiesHead(a: seq<Word>, b: seq<Word>)
    requires SortedByXMin(a) && SortedByXMin(b)
    requires SameTies(a, b)
    requires a != [] && b != []
    ensures a[0] == b[0]
  {
    var ka := a[0].box.xMin;
    var kb := b[0].box.xMin;
    WithXMinHead(a);
    WithXMinHead(b);
    assert WithXMin(a, ka) == WithXMin(b, ka);
    assert WithXMin(a, kb) == WithXMin(b, kb);
    WithXMinMember(b, ka, 0);
    WithXMinMember(a, kb, 0);
    assert kb <= ka;
    assert ka <= kb;
  }

  /** Removing the same first word from two sequences with the same ties keeps their ties equal. */
  lemma SameTiesTail(a: seq<Word>, b: seq<Word>)
    requires SameTies(a, b)
    requires a != [] && b != [] && a[0] == b[0]
    ensures SameTies(a[1..], b[1..])
  {
    forall x
      ensures WithXMin(a[1..], x) == WithXMin(b[1..], x)
    {
      var p := if a[0].box.xMin == x then [a[0]] else [];
      assert WithXMin(a, x) == p + WithXMin(a[1..], x);
      assert WithXMin(b, x) == p + WithXMin(b[1..], x);
      assert WithXMin(a[1..], x) == WithXMin(a, x)[|p|..];
      assert WithXMin(b[1..], x) == WithXMin(b, x)[|p|..];
    }
  }

  /**
    A sequence sorted by left edge is determined by its words and their order
    among equal left edges: the stable sort has exactly one possible output.
   */
  lemma {:induction false} SortedSameTiesUnique(a: seq<Word>, b: seq<Word>)
    requires SortedByXMin(a) && SortedByXMin(b)
    requires SameTies(a, b)
    ensures a == b
    decreases |a|
  {
    if a == [] {
      if b != [] {
        WithXMinHead(b);
      }
    } else if b == [] {
      WithXMinHead(a);
    } else {
      SortedSameTiesHead(a, b);
      SameTiesTail(a, b);
      SortedSameTiesUnique(a[1..], b[1..]);
      assert a == [a[0]] + a[1..];
      assert b == [b[0]] + b[1..];
    }
  }

  /** The stable sort is the unique sorted arrangement that keeps ties in input order. */
  lemma SortByXMinCharacterized(s: seq<Word>, t: seq<Word>)
    requires SortedByXMin(t) && SameTies(t, s)
    ensures SortByXMin(s) == t
  {
    SortedSameTiesUnique(SortByXMin(s), t);
  }
}
