/**
  A worked page line: the label "Nationality" followed on the same line by
  "FIL", "Sex" and "M". The resolver takes every word to the label's right
  on that line, so the value runs on past the next label.
 */
module Scenarios {
  import opened Geometry
  import opened KeyValue
  import opened Text
  import opened XOrder

  /** A word whose text is the label mentions the label. */
  lemma SelfMention(key: string, w: Word)
    requires w.text == key
    ensures Mentions(w, key)
  {
    var l := Lower(key);
    assert l[..|l|] == l;
  }

  lemma LabelSplit(key: string)
    requires key == "Nationality"
    ensures Split(key) == [key]
    ensures |Lower(key)| == 11
  {
    assert IsToken(key);
    SplitJoin([key]);
  }

  lemma OnLabelLine(key: string, a: Box, w: Word)
    requires key == "Nationality" && a == Box(0.10, 0.50, 0.22, 0.54)
    requires |w.text| < 11 && w.box.yMin == 0.50 && w.box.yMax == 0.54 && w.box.xMin > 0.22
    ensures Qualifies(key, a, w)
  {
    LabelSplit(key);
  }

  lemma SelectThree(key: string, a: Box, w0: Word, w1: Word, w2: Word, w3: Word)
    requires !Qualifies(key, a, w0)
    requires Qualifies(key, a, w1) && Qualifies(key, a, w2) && Qualifies(key, a, w3)
    ensures Select(key, a, [w0, w1, w2, w3]) == [w1, w2, w3]
  {
    assert Select(key, a, []) == [];
    assert [w3][1..] == [];
    assert Select(key, a, [w3]) == [w3];
    assert [w2, w3][1..] == [w3];
    assert Select(key, a, [w2, w3]) == [w2, w3];
    assert [w1, w2, w3][1..] == [w2, w3];
    assert Select(key, a, [w1, w2, w3]) == [w1, w2, w3];
    assert [w0, w1, w2, w3][1..] == [w1, w2, w3];
  }

  /** A mentioned label followed by three qualifying words in left-to-right order. */
  lemma ThreeValueWords(key: string, w0: Word, w1: Word, w2: Word, w3: Word)
    requires Mentions(w0, key) && !Qualifies(key, w0.box, w0)
    requires Qualifies(key, w0.box, w1) && Qualifies(key, w0.box, w2) && Qualifies(key, w0.box, w3)
    requires w1.box.xMin < w2.box.xMin < w3.box.xMin
    ensures FindValueAfterKey(key, [w0, w1, w2, w3]) == Join([w1.text, w2.text, w3.text])
  {
    var words := [w0, w1, w2, w3];
    var vs := [w1, w2, w3];
    assert words[0] == w0;
    assert SameTies(vs, Select(key, w0.box, words)) by {
      SelectThree(key, w0.box, w0, w1, w2, w3);
    }
    assert SortedByXMin(vs);
    FindValueAfterKeyCharacterized(key, words, 0, vs);
    assert Texts(vs) == [w1.text, w2.text, w3.text] by {
      assert vs[1..] == [w2, w3];
      assert vs[1..][1..] == [w3];
    }
  }

  lemma JoinLine(a: string, b: string, c: string)
    requires a == "FIL" && b == "Sex" && c == "M"
    ensures Join([a, b, c]) == "FIL Sex M"
  {
    assert Join([b, c]) == b + " " + c by {
      assert [b, c][1..] == [c];
    }
    assert [a, b, c][1..] == [b, c];
  }

  lemma LabelLeftOfItself(key: string, w: Word)
    requires w.box == Box(0.10, 0.50, 0.22, 0.54)
    ensures !Qualifies(key, w.box, w)
  {
  }

  /** The value after "Nationality" is the rest of the line, "FIL Sex M", not just "FIL". */
  lemma NationalityLine(key: string, w0: Word, w1: Word, w2: Word, w3: Word)
    requires key == "Nationality"
    requires w0.text == "Nationality" && w0.box == Box(0.10, 0.50, 0.22, 0.54)
    requires w1.text == "FIL" && w1.box == Box(0.24, 0.50, 0.30, 0.54)
    requires w2.text == "Sex" && w2.box == Box(0.32, 0.50, 0.36, 0.54)
    requires w3.text == "M" && w3.box == Box(0.38, 0.50, 0.40, 0.54)
    ensures FindValueAfterKey(key, [w0, w1, w2, w3]) == "FIL Sex M"
  {
    SelfMention(key, w0);
    OnLabelLine(key, w0.box, w1);
    OnLabelLine(key, w0.box, w2);
    OnLabelLine(key, w0.box, w3);
    LabelLeftOfItself(key, w0);
    ThreeValueWords(key, w0, w1, w2, w3);
    JoinLine(w1.text, w2.text, w3.text);
  }
}
