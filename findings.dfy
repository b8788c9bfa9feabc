/**
  The upload handler checks the extension of the RAW file name, but stores
  the SANITIZED name. When sanitizing drops every character before the dot
  and the dot itself (werkzeug's `secure_filename` turns `отчет.pdf` into
  `pdf`: the Cyrillic letters are not ASCII, and a leading dot is stripped),
  the stored name has no extension. The folder listing then calls
  `get_preview_url` on it, which raises `IndexError`, and the page fails for
  every visitor until the file is removed.
 */
module Findings {
  import opened Wrappers
  import opened Text
  import opened Extensions
  import opened Intake
  import opened Preview

  lemma CyrillicPdfAllowed()
    ensures AllowedFile("отчет.pdf")
  {
    RFindAt("отчет.pdf", '.', 5);
    assert Lower("pdf") == "pdf";
  }

  /**
    As written: the upload is accepted and stored as `pdf`, and the
    preview of that stored name is an error.
   */
  lemma SanitizedUploadBreaksListing(files: map<string, Bytes>, secure: string -> string, content: Bytes)
    requires secure("отчет.pdf") == "pdf" && "pdf" !in files
    ensures Respond(files, Some([Upload("отчет.pdf", content)]), secure)
            == (Response(200, Uploaded("Files uploaded successfully", ["pdf"])), files["pdf" := content])
    ensures PreviewUrl("pdf", "uploads").None?
  {
    var u := Upload("отчет.pdf", content);
    assert AllowedFile(u.filename) by {
      CyrillicPdfAllowed();
    }
    assert secure(u.filename) !in Occupied(files);
    FreshUploadKeepsName(files, u, secure);
    assert '.' !in "pdf";
  }
}
