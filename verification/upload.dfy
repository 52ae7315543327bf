/**
  `allowed_file`: an upload is accepted when its name has a dot and the text
  after the last dot, lower-cased, is one of the image extensions.
 */
module Upload {
  import opened Text
  import opened Options

  const AllowedExtensions: set<string> := {"png", "jpg", "jpeg"}

  /** Position of the last occurrence of `c` in `s`. */
  function LastIndexOf(s: string, c: char): (r: Option<nat>)
    ensures r.Some? ==> r.value < |s| && s[r.value] == c
    ensures r.Some? ==> forall j :: r.value < j < |s| ==> s[j] != c
    ensures r.None? ==> forall j :: 0 <= j < |s| ==> s[j] != c
  {
    if s == [] then None
    else if s[|s| - 1] == c then Some(|s| - 1)
    else LastIndexOf(s[..|s| - 1], c)
  }

  /** `filename.rsplit('.', 1)[1]`: the text after the last dot. */
  function Extension(filename: string): string
    requires '.' in filename
  {
    match LastIndexOf(filename, '.')
    case Some(i) => filename[i + 1..]
    case None => assert false; ""
  }

  /** `filename.rsplit('.', 1)` splits at position `i`: the last dot of the name. */
  ghost predicate LastDotAt(filename: string, i: int) {
    && 0 <= i < |filename|
    && filename[i] == '.'
    && forall j :: i < j < |filename| ==> filename[j] != '.'
  }

  /** `allowed_file(filename)`. */
  function AllowedFile(filename: string): bool {
    '.' in filename && Lower(Extension(filename)) in AllowedExtensions
  }

  /** A name is accepted exactly when the text after its last dot, lower-cased, is an image extension. */
  lemma AllowedFileIff(filename: string)
    ensures AllowedFile(filename) <==>
              exists i :: LastDotAt(filename, i) && Lower(filename[i + 1..]) in AllowedExtensions
  {
    if '.' in filename {
      var i := LastIndexOf(filename, '.').value;
      assert LastDotAt(filename, i);
      forall k | LastDotAt(filename, k)
        ensures k == i
      {
      }
    } else {
      forall k | LastDotAt(filename, k)
        ensures false
      {
      }
    }
  }

  /** A dot-free extension appended after a dot decides acceptance on its own, whatever the stem. */
  lemma AllowedFileByExtension(stem: string, ext: string)
    requires '.' !in ext
    ensures AllowedFile(stem + "." + ext) <==> Lower(ext) in AllowedExtensions
  {
    var f := stem + "." + ext;
    var i := |stem|;
    assert f[i] == '.';
    assert f[i + 1..] == ext;
    assert forall j :: i < j < |f| ==> f[j] == ext[j - i - 1];
    assert LastDotAt(f, i);
    AllowedFileIff(f);
    forall k | LastDotAt(f, k)
      ensures k == i
    {
    }
  }
}
