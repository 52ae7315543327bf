/**
  `find_value_after_key`: given a label and the page's words in reading
  order, find the first word that mentions the label (the anchor) and return
  the words on the anchor's line to its right, left to right, joined by
  single spaces. Words equal to one of the label's own tokens are skipped.
 */
module KeyValue {
  import opened Text
  import opened Geometry
  import opened XOrder
  import opened Options

  /** `key.lower() in word.lower()`. */
  predicate Mentions(w: Word, key: string) {
    Contains(Lower(w.text), Lower(key))
  }

  /** Index of the first word at or after `start` that mentions `key`. */
  function FindAnchorFrom(key: string, words: seq<Word>, start: nat): (r: Option<nat>)
    requires start <= |words|
    ensures r.Some? ==> start <= r.value < |words| && Mentions(words[r.value], key)
    ensures r.Some? ==> forall j :: start <= j < r.value ==> !Mentions(words[j], key)
    ensures r.None? ==> forall j :: start <= j < |words| ==> !Mentions(words[j], key)
    decreases |words| - start
  {
    if start == |words| then None
    else if Mentions(words[start], key) then Some(start)
    else FindAnchorFrom(key, words, start + 1)
  }

  /** The anchor: the first word, in reading order, that mentions `key`. */
  function FindAnchor(key: string, words: seq<Word>): (r: Option<nat>)
    ensures r.Some? ==> r.value < |words| && Mentions(words[r.value], key)
    ensures r.Some? ==> forall j :: 0 <= j < r.value ==> !Mentions(words[j], key)
    ensures r.None? ==> forall j :: 0 <= j < |words| ==> !Mentions(words[j], key)
  {
    FindAnchorFrom(key, words, 0)
  }

  /** The word's text equals, ignoring case, one of the whitespace-separated tokens of `key`. */
  predicate IsKeyPart(key: string, text: string) {
    exists p | p in Split(key) :: Lower(p) == Lower(text)
  }

  /** The three tests a word must pass to belong to the value of the label anchored at `anchor`. */
  predicate Qualifies(key: string, anchor: Box, w: Word) {
    && !IsKeyPart(key, w.text)
    && SameLine(w.box, anchor)
    && RightOf(w.box, anchor)
  }

  /** `a` is `b` with some elements dropped and the rest kept in order. */
  ghost predicate SubsequenceOf(a: seq<Word>, b: seq<Word>)
    decreases |b|
  {
    || a == []
    || (&& b != []
        && ((a[0] == b[0] && SubsequenceOf(a[1..], b[1..])) || SubsequenceOf(a, b[1..])))
  }

  /** The qualifying words, collected in reading order. */
  function Select(key: string, anchor: Box, words: seq<Word>): (r: seq<Word>)
    ensures SubsequenceOf(r, words)
  {
    if words == [] then []
    else
      var rest := Select(key, anchor, words[1..]);
      if Qualifies(key, anchor, words[0]) then [words[0]] + rest else rest
  }

  /** The selection holds each qualifying word as often as the page does, and nothing else. */
  lemma {:induction false} SelectCount(key: string, anchor: Box, words: seq<Word>, w: Word)
    ensures multiset(Select(key, anchor, words))[w] ==
              (if Qualifies(key, anchor, w) then multiset(words)[w] else 0)
  {
    if words != [] {
      SelectCount(key, anchor, words[1..], w);
      assert words == [words[0]] + words[1..];
    }
  }

  /**
    The words whose texts make up the value, in output order: nothing when
    the key is not found, otherwise every qualifying word (as often as it
    occurs) sorted by left edge, ties in reading order.
   */
  function ValueWords(key: string, words: seq<Word>): (r: seq<Word>)
    ensures FindAnchor(key, words).None? ==> r == []
    ensures FindAnchor(key, words).Some? ==>
              var anchor := words[FindAnchor(key, words).value].box;
              && multiset(r) == multiset(Select(key, anchor, words))
              && SortedByXMin(r)
              && SameTies(r, Select(key, anchor, words))
  {
    match FindAnchor(key, words)
    case None => []
    case Some(i) => SortByXMin(Select(key, words[i].box, words))
  }

  /** `find_value_after_key(key_text, all_words)`. */
  function FindValueAfterKey(key: string, words: seq<Word>): (r: string)
    ensures (forall j :: 0 <= j < |words| ==> !Mentions(words[j], key)) ==> r == ""
  {
    match FindAnchor(key, words)
    case None => ""
    case Some(i) =>
      var valueWords := Select(key, words[i].box, words);
      if valueWords == [] then ""
      else Join(Texts(SortByXMin(valueWords)))
  }

  /** The value is the texts of `ValueWords`, joined by single spaces. */
  lemma ValueIsJoinedWords(key: string, words: seq<Word>)
    ensures FindValueAfterKey(key, words) == Join(Texts(ValueWords(key, words)))
  {
  }

  /**
    Reference definition: whenever `i` is the first word mentioning the key
    and `vs` is any arrangement of the qualifying words that is sorted by
    left edge and keeps ties in reading order, the value is `vs` joined by
    single spaces.
   */
  lemma FindValueAfterKeyCharacterized(key: string, words: seq<Word>, i: nat, vs: seq<Word>)
    requires i < |words| && Mentions(words[i], key)
    requires forall j :: 0 <= j < i ==> !Mentions(words[j], key)
    requires SortedByXMin(vs) && SameTies(vs, Select(key, words[i].box, words))
    ensures FindValueAfterKey(key, words) == Join(Texts(vs))
  {
    var a := FindAnchor(key, words);
    assert a == Some(i);
    var sel := Select(key, words[i].box, words);
    SortByXMinCharacterized(sel, vs);
    ValueIsJoinedWords(key, words);
  }

  /** Every qualifying word of the page is in the value as often as on the page; no other word is. */
  lemma ValueWordsCount(key: string, words: seq<Word>, w: Word)
    requires FindAnchor(key, words).Some?
    ensures var anchor := words[FindAnchor(key, words).value].box;
            multiset(ValueWords(key, words))[w] == (if Qualifies(key, anchor, w) then multiset(words)[w] else 0)
  {
    SelectCount(key, words[FindAnchor(key, words).value].box, words, w);
  }

  /** Soundness: a word in the value lies on the anchor's line, right of the anchor, and is not a key token. */
  lemma ValueSound(key: string, words: seq<Word>, w: Word)
    requires w in ValueWords(key, words)
    ensures FindAnchor(key, words).Some?
    ensures var anchor := words[FindAnchor(key, words).value].box;
            && SameLine(w.box, anchor)
            && RightOf(w.box, anchor)
            && !IsKeyPart(key, w.text)
            && w in words
  {
    var vs := ValueWords(key, words);
    assert multiset(vs)[w] > 0;
    if FindAnchor(key, words).Some? {
      ValueWordsCount(key, words, w);
    }
  }

  /** Completeness: a word of the page that passes all three tests is in the value. */
  lemma ValueComplete(key: string, words: seq<Word>, w: Word)
    requires FindAnchor(key, words).Some?
    requires w in words
    requires var anchor := words[FindAnchor(key, words).value].box;
             && SameLine(w.box, anchor)
             && RightOf(w.box, anchor)
             && !IsKeyPart(key, w.text)
    ensures w in ValueWords(key, words)
  {
    ValueWordsCount(key, words, w);
    assert multiset(words)[w] > 0;
  }

  /** A word whose lower-cased text is one of the key's tokens never contributes to the value. */
  lemma KeyPartExcluded(key: string, words: seq<Word>, w: Word, p: string)
    requires p in Split(key) && Lower(p) == Lower(w.text)
    ensures w !in ValueWords(key, words)
  {
    if w in ValueWords(key, words) {
      ValueSound(key, words, w);
    }
  }

  /** With a well-formed box, the anchor word itself is never part of its own value. */
  lemma AnchorNotInValue(key: string, words: seq<Word>)
    requires FindAnchor(key, words).Some?
    requires WellFormed(words[FindAnchor(key, words).value].box)
    ensures words[FindAnchor(key, words).value] !in ValueWords(key, words)
  {
    var w := words[FindAnchor(key, words).value];
    if w in ValueWords(key, words) {
      ValueSound(key, words, w);
    }
  }

  /** When no word of the page passes the three tests, the value is the empty string. */
  lemma NothingQualifiesGivesEmpty(key: string, words: seq<Word>)
    requires FindAnchor(key, words).Some?
    requires forall j :: 0 <= j < |words| ==>
               !Qualifies(key, words[FindAnchor(key, words).value].box, words[j])
    ensures FindValueAfterKey(key, words) == ""
  {
    var vs := ValueWords(key, words);
    if vs != [] {
      ValueSound(key, words, vs[0]);
    }
    ValueIsJoinedWords(key, words);
  }

  /** Words after the first mention cannot move the anchor. */
  lemma {:induction false} AnchorIgnoresLaterWords(key: string, words: seq<Word>, more: seq<Word>)
    requires FindAnchor(key, words).Some?
    ensures FindAnchor(key, words + more) == FindAnchor(key, words)
  {
    var i := FindAnchor(key, words).value;
    var b := FindAnchor(key, words + more);
    assert (words + more)[i] == words[i];
    assert forall j :: 0 <= j < i ==> (words + more)[j] == words[j];
  }

  /**
    When every recognised word is a single whitespace-free token, splitting the
    value on whitespace gives back exactly the texts of the value words, and
    none of those tokens is one of the key's own tokens.
   */
  lemma ValueTokens(key: string, words: seq<Word>)
    requires forall j :: 0 <= j < |words| ==> IsToken(words[j].text)
    ensures Split(FindValueAfterKey(key, words)) == Texts(ValueWords(key, words))
    ensures forall t, p :: t in Split(FindValueAfterKey(key, words)) && p in Split(key) ==> Lower(p) != Lower(t)
  {
    var vs := ValueWords(key, words);
    forall k | 0 <= k < |vs|
      ensures IsToken(vs[k].text) && !IsKeyPart(key, vs[k].text)
    {
      ValueSound(key, words, vs[k]);
    }
    ValueIsJoinedWords(key, words);
    SplitJoin(Texts(vs));
  }
}
