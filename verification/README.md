# ID-card field extraction: key-value resolver and result merge

This project models, in Dafny, the two pieces of pure logic inside an ID-card
scanning service.

- **The spatial key-value resolver** (`find_value_after_key` in `app.py`).
  It takes a label such as `"License No"` and the OCR words of a page in
  reading order. Each word carries a box `((xmin, ymin), (xmax, ymax))`
  normalised to the page. The resolver picks as anchor the first word whose
  lower-cased text contains the lower-cased label. It keeps every word of the
  page, the anchor included, that meets three tests:
  - its vertical centre is within 0.02 of the anchor's;
  - it starts strictly right of the anchor's right edge;
  - it is not, ignoring case, one of the label's own whitespace-separated tokens.
  The anchor itself drops out whenever its box is well formed (left edge not
  right of right edge), since it then cannot start right of itself.
  The kept words are stably sorted by left edge and joined with single spaces.
  A missing label or an empty selection gives `""`.
- **The record assembly** of `process_license_with_doctr`. It holds one entry
  per key-map field, each resolved as above, plus four fixed placeholder
  entries. Also modelled is the upload-name check `allowed_file`.
- **The worker's front/back merge** (`callback` in
  `services/worker/worker.py`). The record starts as `{"job_id": ...}`. The
  front side's result is copied over it with dict-update semantics. Then each
  back-side entry whose value is truthy overwrites the record's entry.
  Truthiness follows Python's rule for decoded JSON (`JobMerge.Truthy`):
  `null`, `false`, `0`, `""`, `[]` and `{}` are falsy, everything else truthy.

Modules, leaves first:

- `Text`: Python's `lower`, `split()`, substring test and `" ".join`.
- `Geometry`: words, boxes, vertical centre, the same-line and right-of tests.
- `XOrder`: the stable sort by left edge, with its uniqueness theorem.
- `KeyValue`: the resolver.
- `LicenseRecord`: the key map and the assembled record.
- `Upload`: the file-extension check.
- `JobMerge`: the worker's merge.
- `Scenarios`: one worked page line.

Coordinates are Dafny `real`s, so the arithmetic is exact, and 0.02 is an
exact constant. Python's `list.sort` is stable. Stability is stated per left
edge: for each `x`, the words whose left edge is `x` appear in the output in
reading order (`XOrder.WithXMin`). `XOrder.SortedSameTiesUnique` proves that
sortedness plus this condition fixes the output completely. So
`KeyValue.FindValueAfterKeyCharacterized` describes the value without
reference to the sorting algorithm.

The resolver finds its anchor with a single-word substring test. It has no
punctuation-stripping normaliser, no multi-word phrase window and no box
validation, and the value has no right boundary at the next label:
`Scenarios.NationalityLine` shows that the line "Nationality FIL Sex M"
resolves to `"FIL Sex M"`. In the worker, a truthy back-side value
overwrites the record's entry even when that entry is non-empty.

## Model

| member | source | states |
|---|---|---|
| Text.Lower | app.py:63 | each character is lower-cased on its own (only A-Z are mapped), the length is kept, and no upper-case letter remains |
| Text.LowerFixedIff | app.py:63 | lower-casing leaves a string unchanged exactly when it has no upper-case letter |
| Text.LowerIdempotent | app.py:63 | lower-casing an already lower-cased label or word changes nothing more |
| Text.ContainsIffOccurs | app.py:63 | the substring test `key in word` holds exactly when the key occurs at some position of the word (so the empty key is in every word) |
| Text.SplitJoin | app.py:90 | splitting on whitespace a single-space join of whitespace-free, non-empty texts gives those texts back |
| XOrder.SortByXMin | app.py:89 | the sort's output is ordered by non-decreasing left edge, is a permutation of its input, and keeps words with equal left edges in input order |
| XOrder.SortedSameTiesUnique | app.py:89 | two sequences both sorted by left edge that agree on the order of every group of equal left edges are equal: a stable sort has one possible output |
| XOrder.SortByXMinCharacterized | app.py:89 | any sequence sorted by left edge that keeps ties in input order is the sort's output |
| KeyValue.FindAnchor | app.py:63 | the anchor is a word whose lower-cased text contains the lower-cased key, and no earlier word does; no anchor means no word does |
| KeyValue.Select | app.py:72-83 | the collected words are a subsequence of the page, in reading order |
| KeyValue.SelectCount | app.py:73-83 | each word that passes the three tests is collected exactly as often as it occurs on the page; no other word is collected |
| KeyValue.ValueWords | app.py:72-89 | with no anchor nothing is selected; otherwise the selection is sorted by left edge, is a permutation of the reading-order collection, and keeps ties in reading order |
| KeyValue.FindValueAfterKey | app.py:92-94 | if no word's lower-cased text contains the lower-cased key, the value is `""` |
| KeyValue.ValueIsJoinedWords | app.py:85-90 | the value is the selected words' texts, in output order, joined by single spaces (`""` for an empty selection) |
| KeyValue.FindValueAfterKeyCharacterized | app.py:63-90 | given the first mentioning word and any arrangement of the qualifying words sorted by left edge with ties in reading order, the value is that arrangement's texts joined by single spaces |
| KeyValue.ValueWordsCount | app.py:73-83 | when the key is found, a word occurs in the value as often as on the page if it passes the three tests, and never otherwise |
| KeyValue.ValueSound | app.py:69-83 | every word of the value has its vertical centre within 0.02 of the anchor's, its left edge strictly right of the anchor's right edge, is not a key token, and comes from the page |
| KeyValue.ValueComplete | app.py:73-83 | every page word on the anchor's line, right of the anchor and not a key token, is in the value |
| KeyValue.KeyPartExcluded | app.py:75-76 | a word whose lower-cased text equals a lower-cased whitespace token of the key is never in the value |
| KeyValue.AnchorNotInValue | app.py:81-82 | when the anchor's box is well formed, the anchor word itself is not in its value |
| KeyValue.NothingQualifiesGivesEmpty | app.py:85-86 | when the key is found but no word passes the three tests, the value is exactly `""` |
| KeyValue.AnchorIgnoresLaterWords | app.py:63 | appending words after a page that already mentions the key does not move the anchor: the first mention wins |
| KeyValue.ValueTokens | app.py:75-90 | when every word is a whitespace-free token, splitting the value gives the value words' texts, none equal (ignoring case) to a key token |
| LicenseRecord.FillFields | app.py:125-127 | the loop's record has exactly the key map's field names as keys |
| LicenseRecord.FillFieldsLastWins | app.py:126-127 | a field's entry is the value found after the label of the last pair naming that field |
| LicenseRecord.ExtractLicense | app.py:125-139 | the record's keys are the twelve key-map fields and the four placeholders; `full_name` is `NEEDS_CUSTOM_LOGIC` and photograph, signature and barcode are `NOT_IMPLEMENTED` |
| LicenseRecord.KeyMapNamesDistinct | app.py:109-123 | the key map's field names are pairwise distinct and none is a placeholder field |
| LicenseRecord.ExtractLicenseFields | app.py:109-127 | each key-map field holds `find_value_after_key` of its own label |
| LicenseRecord.ExtractLicenseSize | app.py:109-137 | the record has exactly sixteen entries |
| LicenseRecord.MissingLabelGivesEmptyField | app.py:126-127 | a field whose label no word mentions is `""` in the record |
| Upload.LastIndexOf | app.py:54 | the position found holds the character and no later position does; no position means the character is absent |
| Upload.AllowedFileIff | app.py:53-54 | `Upload.AllowedFile` accepts a name iff it has a dot and the text after its last dot, lower-cased, is `png`, `jpg` or `jpeg` |
| Upload.AllowedFileByExtension | app.py:19-54 | appending a dot and a dot-free extension to any name makes acceptance depend on the extension alone |
| JobMerge.MergeNonEmpty | services/worker/worker.py:89-92 | after the merge the keys are the record's plus the back side's truthy keys; truthy back values win; every other entry is unchanged |
| JobMerge.MergeBack | services/worker/worker.py:90-92 | the merge loop, visiting the back side's keys in any order, produces the whole-map merge |
| JobMerge.FrontStage | services/worker/worker.py:81-85 | the record holds `job_id` plus, when a front image was sent, the front result's keys; a front value overrides the job id |
| JobMerge.BuildResult | services/worker/worker.py:79-92 | the record always holds `job_id`; a key is present iff it is `job_id`, a front key (front image sent) or a truthy back key (back image sent); its value is the truthy back value, else the front value, else the job id |
| JobMerge.NoImagesGivesJobIdOnly | services/worker/worker.py:79-87 | a message with neither image yields exactly `{"job_id": job_id}` |
| JobMerge.JobIdKept | services/worker/worker.py:79-92 | the job id survives unless the front result or a truthy back value carries its own `job_id` |
| JobMerge.FalsyBackIgnored | services/worker/worker.py:91 | a back entry with a falsy value changes nothing: the record equals the one built without that key |
| JobMerge.MergeFrame | services/worker/worker.py:89-92 | a key the back side does not mention keeps its pre-merge entry, or stays absent |
| Scenarios.NationalityLine | app.py:56-94 | on the line "Nationality FIL Sex M" the value after "Nationality" is `"FIL Sex M"` |

## Left out

- OCR model loading, image decoding and flattening of the OCR result into words (app.py:14-15, 27-31, 100-104). These are calls into a machine-learning library, so the word list is an input.
- The MongoDB connection and inserts in both services. This is persistence I/O.
- The Flask routes, file saving and deletion, and HTTP error responses (app.py:141-188). This is web plumbing.
- The Ollama/LLaVA request and JSON decoding (worker.py:18-74). This is a network call to an opaque model, so each side's result is an input map. Its error path returns `{"error": ...}`, which is one such map.
- The RabbitMQ consume loop, retries, sleeps and acknowledgements (worker.py:107-129). This is transport and concurrency.
- All of services/web-app/app.py. It handles uploads and queue publishing, and holds no logic of its own.
- Text.Lower: maps only the ASCII letters A-Z. Python's `str.lower` also maps other Unicode letters, some to more than one character. The same goes for the case folding in `Mentions`, `IsKeyPart` and `AllowedFile`.
- Floating-point behaviour of the coordinates and of JSON numbers. The model computes with exact reals, so `JobMerge.Json` has no NaN or infinity, which Python's `json.loads` accepts and which are truthy.
- A job message that is not a JSON object, or a model response that is a JSON value other than an object. A non-object message raises at `message.get` (worker.py:79), and a non-object back response raises at `.items()` (worker.py:90). A front response is passed to `dict.update` (worker.py:85): an empty list or string adds nothing, and a list of key/value pairs adds those pairs, so such a response acts like the corresponding map, and the model takes every side's result as a map.
- Dictionary iteration order. Records are modelled as maps, so the key order of the serialised JSON object is not modelled.
- Punctuation stripping, multi-word label matching, a right boundary at the next label and box validation. `find_value_after_key` (app.py:56-94) does none of these, so the model does not either.
