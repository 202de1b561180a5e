/**
 * The `isImage` custom validator (app.js): an uploaded file's lower-cased
 * extension decides whether it is accepted, and which extension it is stored
 * under.
 */
module ImageValidator {
  import opened Ascii
  import opened Wrappers

  /** `isImage` returns an extension string, or `false`. */
  datatype Verdict = Image(ext: string) | NotImage

  /** The index of the last occurrence of `c` in `s`, if any. */
  function LastIndexOf(s: string, c: char): (r: Option<nat>)
    ensures r.Some? ==> r.value < |s| && s[r.value] == c && forall j :: r.value < j < |s| ==> s[j] != c
    ensures r.None? ==> forall j :: 0 <= j < |s| ==> s[j] != c
  {
    if s == [] then None
    else if s[|s| - 1] == c then Some(|s| - 1)
    else LastIndexOf(s[..|s| - 1], c)
  }

  /** The last path component: what follows the last `/`. */
  function Basename(path: string): (b: string)
    ensures |b| <= |path| && b == path[|path| - |b|..]
    ensures forall i :: 0 <= i < |b| ==> b[i] != '/'
  {
    match LastIndexOf(path, '/')
    case None => path
    case Some(i) => path[i + 1..]
  }

  /**
   * `path.extname`: the basename's suffix from its last `.`; empty when the
   * basename has no `.` or its only `.` is its first character.
   */
  function ExtName(path: string): (ext: string)
    ensures |ext| <= |path| && ext == path[|path| - |ext|..]
    ensures ext == [] || ext[0] == '.'
    ensures forall i :: 0 < i < |ext| ==> ext[i] != '.'
    ensures forall i :: 0 <= i < |ext| ==> ext[i] != '/'
    ensures ext == [] <==> forall i :: 0 < i < |Basename(path)| ==> Basename(path)[i] != '.'
  {
    var base := Basename(path);
    match LastIndexOf(base, '.')
    case None => []
    case Some(i) => if i == 0 then [] else base[i..]
  }

  /** The validator; its first argument is unused by the source and left out. */
  function IsImage(filename: string): (v: Verdict)
    ensures v.Image? ==> v.ext == ".jpg" || v.ext == ".jpeg" || v.ext == ".png"
    ensures v.Image? <==> ToLower(ExtName(filename)) in {"", ".jpg", ".jpeg", ".png"}
    ensures v.Image? && ExtName(filename) != [] ==> v.ext == ToLower(ExtName(filename))
    ensures ExtName(filename) == [] ==> v == Image(".jpg")
  {
    var extension := ToLower(ExtName(filename));
    if extension == ".jpg" then Image(".jpg")
    else if extension == ".jpeg" then Image(".jpeg")
    else if extension == ".png" then Image(".png")
    else if extension == "" then Image(".jpg")
    else NotImage
  }

  /** Lower-casing leaves `/` and `.` where they are. */
  lemma {:induction false} LastIndexOfIgnoresCase(s: string, c: char)
    requires c == '/' || c == '.'
    ensures LastIndexOf(ToLower(s), c) == LastIndexOf(s, c)
    decreases |s|
  {
    if s != [] {
      var n := |s| - 1;
      assert ToLower(s)[..n] == ToLower(s[..n]);
      LastIndexOfIgnoresCase(s[..n], c);
    }
  }

  /** Taking the basename commutes with lower-casing the path. */
  lemma BasenameIgnoresCase(path: string)
    ensures Basename(ToLower(path)) == ToLower(Basename(path))
  {
    LastIndexOfIgnoresCase(path, '/');
    var r := LastIndexOf(path, '/');
    if r.Some? {
      ToLowerSuffix(path, r.value + 1);
    }
  }

  /** Taking the extension commutes with lower-casing the file name. */
  lemma ExtNameIgnoresCase(path: string)
    ensures ExtName(ToLower(path)) == ToLower(ExtName(path))
  {
    BasenameIgnoresCase(path);
    var base := Basename(path);
    LastIndexOfIgnoresCase(base, '.');
    var r := LastIndexOf(base, '.');
    if r.Some? && r.value != 0 {
      ToLowerSuffix(base, r.value);
    }
  }

  /** Matching is case-insensitive: a name and its lower-cased form get the same verdict. */
  lemma IsImageIgnoresCase(filename: string)
    ensures IsImage(ToLower(filename)) == IsImage(filename)
  {
    ExtNameIgnoresCase(filename);
    ToLowerFixesLowerCase(ToLower(ExtName(filename)));
  }

  /**
   * In a name without `/`, a `.` after the first character with no `.` after
   * it starts the extension.
   */
  lemma ExtNameAt(name: string, k: nat)
    requires 0 < k < |name| && name[k] == '.'
    requires forall j :: 0 <= j < |name| ==> name[j] != '/'
    requires forall j :: k < j < |name| ==> name[j] != '.'
    ensures ExtName(name) == name[k..]
  {
  }

  /** An upper-case extension is accepted under its lower-case spelling. */
  lemma UpperCaseExtension()
    ensures IsImage("photo.PNG") == Image(".png")
  {
    ExtNameAt("photo.PNG", 5);
    assert "photo.PNG"[5..] == ".PNG";
    assert ToLower(".PNG") == ".png";
  }

  /** A name without an extension is accepted as `.jpg`. */
  lemma MissingExtension()
    ensures IsImage("README") == Image(".jpg")
  {
    assert '/' !in "README" && '.' !in "README";
    assert ExtName("README") == [];
  }

  /** Any other extension is refused. */
  lemma OtherExtension()
    ensures IsImage("anim.gif") == NotImage
  {
    ExtNameAt("anim.gif", 4);
    assert "anim.gif"[4..] == ".gif";
    assert ToLower(".gif") == ".gif";
  }
}
