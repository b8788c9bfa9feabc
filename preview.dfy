/**
  `get_preview_url`: the thumbnail shown beside a listed file, chosen from
  the lower-cased text after the last dot of its name.
 */
module Preview {
  import opened Wrappers
  import opened Text
  import opened Extensions

  const ImageExtensions: set<string> := {"jpg", "jpeg", "png", "gif", "bmp", "webp"}
  const PdfIcon := "/static/pdf-icon.png"
  const FileIcon := "/static/file-icon.png"
  const VideoIcon := "/static/video-icon.png"

  /**
    The preview URL of `filename` listed from `folder`. An image previews as
    itself, `/{folder}/{filename}`; everything else gets a static icon. A
    name without a dot makes the source raise `IndexError`: `None` here.
   */
  function PreviewUrl(filename: string, folder: string): (r: Option<string>)
    ensures r.None? <==> '.' !in filename
    ensures r.Some? ==> r.value == "/" + folder + "/" + filename
                        || r.value in {PdfIcon, FileIcon, VideoIcon}
  {
    match LastExtension(filename)
    case None => None
    case Some(e) =>
      var ext := Lower(e);
      if ext in ImageExtensions then Some("/" + folder + "/" + filename)
      else if ext == "pdf" then Some(PdfIcon)
      else if ext in {"txt", "docx", "zip"} then Some(FileIcon)
      else if ext == "mp4" then Some(VideoIcon)
      else Some(FileIcon)
  }

  /** Every file the upload form accepts can be listed without an error. */
  lemma AllowedFileHasPreview(filename: string, folder: string)
    requires AllowedFile(filename)
    ensures PreviewUrl(filename, folder).Some?
  {
  }

  /** Images preview as the file itself, served from its folder. */
  lemma ImagePreview(filename: string, folder: string)
    requires LastExtension(filename).Some?
    requires Lower(LastExtension(filename).value) in ImageExtensions
    ensures PreviewUrl(filename, folder) == Some("/" + folder + "/" + filename)
  {
  }

  /**
    For a non-image, the icon is the pdf icon exactly for `pdf`, the video
    icon exactly for `mp4` (not `mov` or `avi`), and the generic file icon
    for every other extension, allowed or not.
   */
  lemma IconPreview(filename: string, folder: string)
    requires LastExtension(filename).Some?
    requires Lower(LastExtension(filename).value) !in ImageExtensions
    ensures (PreviewUrl(filename, folder) == Some(PdfIcon))
      <==> (Lower(LastExtension(filename).value) == "pdf")
    ensures (PreviewUrl(filename, folder) == Some(VideoIcon))
      <==> (Lower(LastExtension(filename).value) == "mp4")
    ensures (PreviewUrl(filename, folder) == Some(FileIcon))
      <==> (Lower(LastExtension(filename).value) !in {"pdf", "mp4"})
  {
  }

  /** Allowed audio and non-mp4 video files get the generic file icon. */
  lemma MediaWithoutVideoIcon(filename: string, folder: string)
    requires LastExtension(filename).Some?
    requires Lower(LastExtension(filename).value) in {"mov", "avi", "mp3", "wav"}
    ensures AllowedFile(filename)
    ensures PreviewUrl(filename, folder) == Some(FileIcon)
  {
  }

  /**
    Case does not matter: a name and its lower-cased form get the same
    icon, and an image stays an image.
   */
  lemma PreviewIgnoresCase(filename: string, folder: string)
    ensures PreviewUrl(Lower(filename), folder).None? <==> PreviewUrl(filename, folder).None?
    ensures LastExtension(filename).Some? && Lower(LastExtension(filename).value) in ImageExtensions
      ==> PreviewUrl(Lower(filename), folder) == Some("/" + folder + "/" + Lower(filename))
    ensures LastExtension(filename).Some? && Lower(LastExtension(filename).value) !in ImageExtensions
      ==> PreviewUrl(Lower(filename), folder) == PreviewUrl(filename, folder)
  {
    LastExtensionOfLower(filename);
    if LastExtension(filename).Some? {
      LowerIdempotent(LastExtension(filename).value);
    }
  }

  /**
    The listing preview with the fallback the listing needs: a stored name
    without a dot gets the generic file icon instead of an error.
   */
  function ListingPreviewUrl(filename: string, folder: string): (r: string)
    ensures PreviewUrl(filename, folder).Some? ==> r == PreviewUrl(filename, folder).value
    ensures '.' !in filename ==> r == FileIcon
  {
    match PreviewUrl(filename, folder)
    case Some(url) => url
    case None => FileIcon
  }

  /** Every name in a folder listing gets a preview, and a listed image still previews as itself. */
  lemma ListingPreviewTotal(filename: string, folder: string)
    ensures ListingPreviewUrl(filename, folder) == "/" + folder + "/" + filename
            || ListingPreviewUrl(filename, folder) in {PdfIcon, FileIcon, VideoIcon}
    ensures LastExtension(filename).Some? && Lower(LastExtension(filename).value) in ImageExtensions
            ==> ListingPreviewUrl(filename, folder) == "/" + folder + "/" + filename
  {
  }
}
