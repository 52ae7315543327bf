/**
  The record `process_license_with_doctr` assembles from the page's words:
  one entry per field of the key map, each resolved with
  `find_value_after_key`, followed by four fixed placeholder entries. The OCR
  call that produces the words is outside this model; the words are an input.
 */
module LicenseRecord {
  import opened Geometry
  import opened KeyValue

  /** Field name and label text, in the key map's declaration order. */
  const KeyMap: seq<(string, string)> := [
    ("license_number", "License No"),
    ("expiration_date", "Expiration"),
    ("nationality", "Nationality"),
    ("date_of_birth", "Birth"),
    ("weight_kg", "Weight"),
    ("height_m", "Height"),
    ("address", "Address"),
    ("blood_type", "Blood"),
    ("eye_color", "Eyes"),
    ("conditions", "Conditions"),
    ("agency_code", "Agency"),
    ("serial_number", "Serial")
  ]

  const NeedsCustomLogic: string := "NEEDS_CUSTOM_LOGIC"
  const NotImplemented: string := "NOT_IMPLEMENTED"

  /** The names of the entries written after the key-map loop. */
  const PlaceholderFields: set<string> :=
    {"full_name", "photograph_base64", "signature_base64", "barcode_data"}

  function FieldNames(pairs: seq<(string, string)>): set<string> {
    set k | 0 <= k < |pairs| :: pairs[k].0
  }

  /**
    The key-map loop: each pair, in order, stores the value found after its
    label under its field name; a later pair with the same name overwrites
    an earlier one.
   */
  function FillFields(pairs: seq<(string, string)>, words: seq<Word>): (r: map<string, string>)
    ensures r.Keys == FieldNames(pairs)
    decreases |pairs|
  {
    if pairs == [] then map[]
    else
      var n := |pairs| - 1;
      FieldNamesSnoc(pairs);
      FillFields(pairs[..n], words)[pairs[n].0 := FindValueAfterKey(pairs[n].1, words)]
  }

  lemma FieldNamesSnoc(pairs: seq<(string, string)>)
    requires pairs != []
    ensures FieldNames(pairs) == FieldNames(pairs[..|pairs| - 1]) + {pairs[|pairs| - 1].0}
  {
    var n := |pairs| - 1;
    assert forall k :: 0 <= k < n ==> pairs[..n][k] == pairs[k];
  }

  /** The entry of a field is the value found after the label of the last pair naming that field. */
  lemma {:induction false} FillFieldsLastWins(pairs: seq<(string, string)>, words: seq<Word>, k: nat)
    requires k < |pairs|
    requires forall j :: k < j < |pairs| ==> pairs[j].0 != pairs[k].0
    ensures FillFields(pairs, words)[pairs[k].0] == FindValueAfterKey(pairs[k].1, words)
    decreases |pairs|
  {
    var n := |pairs| - 1;
    var prefix := pairs[..n];
    if k < n {
      assert prefix[k] == pairs[k];
      assert pairs[n].0 != pairs[k].0;
      FillFieldsLastWins(prefix, words, k);
    }
  }

  /** No two pairs of the key map name the same field, and none names a placeholder field. */
  lemma KeyMapNamesDistinct()
    ensures forall i, j :: 0 <= i < j < |KeyMap| ==> KeyMap[i].0 != KeyMap[j].0
    ensures forall i :: 0 <= i < |KeyMap| ==> KeyMap[i].0 !in PlaceholderFields
  {
    var names := seq(|KeyMap|, i requires 0 <= i < |KeyMap| => KeyMap[i].0);
    assert names == ["license_number", "expiration_date", "nationality", "date_of_birth",
                     "weight_kg", "height_m", "address", "blood_type", "eye_color",
                     "conditions", "agency_code", "serial_number"];
  }

  /** `process_license_with_doctr`, given the page's words. */
  function ExtractLicense(words: seq<Word>): (r: map<string, string>)
    ensures r.Keys == FieldNames(KeyMap) + PlaceholderFields
    ensures r["full_name"] == NeedsCustomLogic
    ensures r["photograph_base64"] == NotImplemented
    ensures r["signature_base64"] == NotImplemented
    ensures r["barcode_data"] == NotImplemented
  {
    AddPlaceholders(FillFields(KeyMap, words))
  }

  /** The four assignments after the loop. */
  function AddPlaceholders(fields: map<string, string>): (r: map<string, string>)
    ensures r.Keys == fields.Keys + PlaceholderFields
    ensures forall k :: k in fields && k !in PlaceholderFields ==> r[k] == fields[k]
    ensures r["full_name"] == NeedsCustomLogic
    ensures r["photograph_base64"] == NotImplemented
    ensures r["signature_base64"] == NotImplemented
    ensures r["barcode_data"] == NotImplemented
  {
    fields["full_name" := NeedsCustomLogic]
          ["photograph_base64" := NotImplemented]
          ["signature_base64" := NotImplemented]
          ["barcode_data" := NotImplemented]
  }

  /** Every key-map field holds the value found after its own label. */
  lemma ExtractLicenseFields(words: seq<Word>, k: nat)
    requires k < |KeyMap|
    ensures ExtractLicense(words)[KeyMap[k].0] == FindValueAfterKey(KeyMap[k].1, words)
  {
    KeyMapNamesDistinct();
    FillFieldsLastWins(KeyMap, words, k);
  }

  /** The record has exactly sixteen entries: twelve looked-up fields and four placeholders. */
  lemma ExtractLicenseSize(words: seq<Word>)
    ensures |ExtractLicense(words)| == 16
  {
    KeyMapNamesDistinct();
    DistinctNamesCount(KeyMap);
    var names := FieldNames(KeyMap);
    assert names * PlaceholderFields == {};
    assert |PlaceholderFields| == 4;
    assert |names + PlaceholderFields| == |names| + |PlaceholderFields|;
  }

  lemma {:induction false} DistinctNamesCount(pairs: seq<(string, string)>)
    requires forall i, j :: 0 <= i < j < |pairs| ==> pairs[i].0 != pairs[j].0
    ensures |FieldNames(pairs)| == |pairs|
    decreases |pairs|
  {
    if pairs != [] {
      var n := |pairs| - 1;
      var prefix := pairs[..n];
      assert forall k :: 0 <= k < n ==> prefix[k] == pairs[k];
      DistinctNamesCount(prefix);
      assert FieldNames(pairs) == FieldNames(prefix) + {pairs[n].0};
      assert pairs[n].0 !in FieldNames(prefix);
    }
  }

  /** A label that no word mentions leaves its field empty. */
  lemma MissingLabelGivesEmptyField(words: seq<Word>, k: nat)
    requires k < |KeyMap|
    requires forall j :: 0 <= j < |words| ==> !Mentions(words[j], KeyMap[k].1)
    ensures ExtractLicense(words)[KeyMap[k].0] == ""
  {
    ExtractLicenseFields(words, k);
  }
}
