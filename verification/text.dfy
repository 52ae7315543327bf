/**
  The three Python string operations the key-value resolver relies on:
  `str.lower()`, `str.split()` with no separator, the substring test
  `needle in hay`, and `" ".join(...)`.
 */
module Text {

  /** Lower-cases one character. Only the ASCII letters A-Z are mapped. */
  function LowerChar(c: char): char {
    if 'A' <= c <= 'Z' then (c as int + 32) as char else c
  }

  predicate IsUpper(c: char) {
    'A' <= c <= 'Z'
  }

  /** `s.lower()`, character by character. */
  function Lower(s: string): (r: string)
    ensures |r| == |s|
    ensures forall i :: 0 <= i < |s| ==> r[i] == LowerChar(s[i])
    ensures forall i :: 0 <= i < |r| ==> !IsUpper(r[i])
  {
    if s == [] then [] else [LowerChar(s[0])] + Lower(s[1..])
  }

  /** Lower-casing leaves a string unchanged exactly when it has no upper-case letter. */
  lemma LowerFixedIff(s: string)
    ensures Lower(s) == s <==> forall i :: 0 <= i < |s| ==> !IsUpper(s[i])
  {
    if Lower(s) != s {
      var i :| 0 <= i < |s| && Lower(s)[i] != s[i];
      assert IsUpper(s[i]);
    }
  }

  /** Lower-casing twice is lower-casing once. */
  lemma LowerIdempotent(s: string)
    ensures Lower(Lower(s)) == Lower(s)
  {
    LowerFixedIff(Lower(s));
  }

  /** The characters Python's `str.isspace()` accepts, and so `str.split()` splits on. */
  predicate IsSpace(c: char) {
    || c == ' '
    || '\t' <= c <= '\r'
    || '\U{1C}' <= c <= '\U{1F}'
    || c == '\U{85}'
    || c == '\U{A0}'
    || c == '\U{1680}'
    || '\U{2000}' <= c <= '\U{200A}'
    || c == '\U{2028}'
    || c == '\U{2029}'
    || c == '\U{202F}'
    || c == '\U{205F}'
    || c == '\U{3000}'
  }

  /** A piece `str.split()` can produce: non-empty and free of whitespace. */
  predicate IsToken(t: string) {
    t != [] && forall i :: 0 <= i < |t| ==> !IsSpace(t[i])
  }

  /** Length of the run of non-whitespace characters that starts `s`. */
  function TokenLen(s: string): (n: nat)
    ensures n <= |s|
    ensures forall i :: 0 <= i < n ==> !IsSpace(s[i])
    ensures n < |s| ==> IsSpace(s[n])
  {
    if s == [] || IsSpace(s[0]) then 0 else 1 + TokenLen(s[1..])
  }

  /** `s.split()`: the maximal runs of non-whitespace characters, in order. */
  function Split(s: string): (r: seq<string>)
    ensures forall k :: 0 <= k < |r| ==> IsToken(r[k])
    decreases |s|
  {
    if s == [] then []
    else if IsSpace(s[0]) then Split(s[1..])
    else
      var n := TokenLen(s);
      [s[..n]] + Split(s[n..])
  }

  /** `" ".join(ts)`. */
  function Join(ts: seq<string>): (r: string)
    ensures ts == [] ==> r == []
    ensures |ts| == 1 ==> r == ts[0]
  {
    if ts == [] then ""
    else if |ts| == 1 then ts[0]
    else ts[0] + " " + Join(ts[1..])
  }

  lemma TokenLenOfToken(t: string, u: string)
    requires IsToken(t)
    requires u == [] || IsSpace(u[0])
    ensures TokenLen(t + u) == |t|
    decreases |t|
  {
    if |t| > 1 {
      assert (t + u)[1..] == t[1..] + u;
      TokenLenOfToken(t[1..], u);
    } else {
      assert (t + u)[1..] == u;
    }
  }

  /** Splitting a space-joined list of tokens gives the tokens back. */
  lemma {:induction false} SplitJoin(ts: seq<string>)
    requires forall k :: 0 <= k < |ts| ==> IsToken(ts[k])
    ensures Split(Join(ts)) == ts
  {
    if ts == [] {
    } else if |ts| == 1 {
      var t := ts[0];
      TokenLenOfToken(t, []);
      assert t + [] == t;
      assert t[..|t|] == t && t[|t|..] == [];
    } else {
      var t := ts[0];
      var rest := Join(ts[1..]);
      var s := t + " " + rest;
      assert Join(ts) == s;
      assert s == t + (" " + rest);
      TokenLenOfToken(t, " " + rest);
      assert s[..|t|] == t;
      assert s[|t|..] == " " + rest;
      assert (" " + rest)[1..] == rest;
      assert Split(" " + rest) == Split(rest);
      SplitJoin(ts[1..]);
      assert ts == [t] + ts[1..];
    }
  }

  /** `h[i..]` starts with `n`. */
  predicate OccursAt(h: string, n: string, i: int) {
    0 <= i && i + |n| <= |h| && h[i..i + |n|] == n
  }

  /** `n in h` for strings: `n` is a substring of `h` (the empty string is in every string). */
  function Contains(h: string, n: string): bool
    decreases |h|
  {
    if |n| > |h| then false
    else if h[..|n|] == n then true
    else Contains(h[1..], n)
  }

  /** The scanning substring test agrees with the definition by position. */
  lemma {:induction false} ContainsIffOccurs(h: string, n: string)
    ensures Contains(h, n) <==> exists i :: OccursAt(h, n, i)
    decreases |h|
  {
    if |n| > |h| {
      assert forall i :: !OccursAt(h, n, i);
    } else if h[..|n|] == n {
      assert OccursAt(h, n, 0);
    } else {
      ContainsIffOccurs(h[1..], n);
      forall i | OccursAt(h, n, i)
        ensures OccursAt(h[1..], n, i - 1)
      {
        assert i != 0;
        assert h[1..][i - 1..i - 1 + |n|] == h[i..i + |n|];
      }
      forall i | OccursAt(h[1..], n, i)
        ensures OccursAt(h, n, i + 1)
      {
        assert h[1..][i..i + |n|] == h[i + 1..i + 1 + |n|];
      }
    }
  }
}
