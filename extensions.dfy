/**
  The extension check of the upload form: `ALLOWED_EXTENSIONS` and
  `allowed_file`.
 */
module Extensions {
  import opened Wrappers
  import opened Text

  const AllowedExtensions: set<string> :=
    {"jpg", "jpeg", "png", "gif", "bmp", "webp", "pdf", "txt", "docx", "zip",
     "mp4", "mp3", "wav", "avi", "mov"}

  /** `name[i]` is the last dot of `name`. */
  predicate IsLastDot(name: string, i: int) {
    0 <= i < |name| && name[i] == '.' && forall k :: i < k < |name| ==> name[k] != '.'
  }

  /**
    `name.rsplit(".", 1)[1]`: the text after the last dot. Python raises
    `IndexError` for a name without a dot; that is `None` here.
   */
  function LastExtension(name: string): (r: Option<string>)
    ensures r.None? <==> '.' !in name
    ensures r.Some? ==> '.' !in r.value
    ensures r.Some? ==> exists i :: IsLastDot(name, i) && r.value == name[i + 1..]
  {
    var dot := RFind(name, '.');
    if dot < 0 then None
    else
      assert IsLastDot(name, dot);
      Some(name[dot + 1..])
  }

  /** `allowed_file`: a dot, and the lower-cased text after the last dot is allowed. */
  function AllowedFile(name: string): (r: bool)
    ensures '.' !in name ==> !r
  {
    var ext := LastExtension(name);
    ext.Some? && Lower(ext.value) in AllowedExtensions
  }

  /**
    What `allowed_file` accepts: a name whose text after its last dot,
    lower-cased, is an allowed extension.
   */
  lemma AllowedFileMeaning(name: string)
    ensures AllowedFile(name) <==> exists i :: IsLastDot(name, i) && Lower(name[i + 1..]) in AllowedExtensions
  {
    var dot := RFind(name, '.');
    if dot >= 0 {
      assert IsLastDot(name, dot);
      assert LastExtension(name) == Some(name[dot + 1..]);
      forall i | IsLastDot(name, i)
        ensures i == dot
      {
        RFindAt(name, '.', i);
      }
    } else {
      assert forall i :: !IsLastDot(name, i);
    }
  }

  /** Lower-casing a name lower-cases its last extension and moves nothing. */
  lemma LastExtensionOfLower(name: string)
    ensures LastExtension(Lower(name)).None? <==> LastExtension(name).None?
    ensures LastExtension(name).Some? ==>
              LastExtension(Lower(name)).value == Lower(LastExtension(name).value)
  {
    RFindLowerDot(name);
    var dot := RFind(name, '.');
    if dot >= 0 {
      LowerSlice(name, dot + 1);
    }
  }

  /** The check ignores case: lower-casing the whole name changes nothing. */
  lemma AllowedFileIgnoresCase(name: string)
    ensures AllowedFile(Lower(name)) == AllowedFile(name)
  {
    LastExtensionOfLower(name);
    if LastExtension(name).Some? {
      LowerIdempotent(LastExtension(name).value);
    }
  }

  /** The verdict depends only on the lower-cased last extension. */
  lemma AllowedFileByExtension(a: string, b: string)
    requires LastExtension(a).Some? && LastExtension(b).Some?
    requires Lower(LastExtension(a).value) == Lower(LastExtension(b).value)
    ensures AllowedFile(a) == AllowedFile(b)
  {
  }

  /** Upper-case extensions pass. */
  lemma UpperCaseImageAllowed()
    ensures AllowedFile("IMG.JPG")
  {
    RFindAt("IMG.JPG", '.', 3);
    assert Lower("JPG") == "jpg";
  }

  /** Only the last extension counts, so a compressed tarball is refused. */
  lemma DoubleExtensionRefused()
    ensures !AllowedFile("a.tar.gz")
  {
    assert Lower("gz") !in AllowedExtensions by {
      assert Lower("gz") == "gz";
    }
    assert LastExtension("a.tar.gz") == Some("gz") by {
      RFindAt("a.tar.gz", '.', 5);
    }
  }

  lemma ExecutableRefused()
    ensures !AllowedFile("x.exe")
  {
    RFindAt("x.exe", '.', 1);
    assert Lower("exe") == "exe";
  }

  /** A trailing dot leaves an empty extension, which is not allowed. */
  lemma TrailingDotRefused()
    ensures !AllowedFile("report.")
  {
    RFindAt("report.", '.', 6);
  }
}
