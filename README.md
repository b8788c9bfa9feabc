# Upload intake of the file-sharing portal

This project models the upload path of a small Flask file-sharing portal, `app.py`, and proves properties of that model.

A browser posts one or more files to `/upload`, and the handler `upload_file` then works as follows:
- It refuses the request when the form has no `files` field, or when every submitted name is empty.
- It walks the files in order and skips those with an empty name.
- It stops at the first file whose RAW name does not end in an allowed extension, and reports that name.
- Otherwise it sanitizes the name, which is werkzeug's `secure_filename`.
- It resolves a free name in the `uploads/` folder (`get_unique_filename`: `base_1.ext`, `base_2.ext`, ...), saves the file under that name and records the name.

Files saved before a refusal stay in the folder. The folder listing shows a preview for each stored name, chosen by `get_preview_url` from the name's last extension.

The modules follow the pieces of `app.py`:
- `Text` holds the Python string primitives the code relies on:
  - ASCII `str.lower`;
  - `str.rfind` of one character;
  - `str(n)` for a non-negative `n`, with its inverse.
- `PathSplit` is `os.path.splitext` on POSIX. The extension starts at the last `.` after the last `/`, except that dots leading the final component do not start one.
- `Extensions` holds `ALLOWED_EXTENSIONS` and `allowed_file`.
- `UniqueName` is `get_unique_filename`:
  - `FreeName`, a recursive definition of the name the probing loop must find;
  - the loop itself, method `UniqueFilename`, which is proved to return it.
- `Preview` is `get_preview_url`. A name without a dot, where Python raises `IndexError`, gives `None`.
- `Intake` is `upload_file`:
  - the upload folder is a class `UploadFolder` whose `files` map, from name to content, the handler changes in place;
  - `Step`, `RunLoop` and `Respond` define, file by file, what the loop must do;
  - method `UploadFile` is the loop itself, proved to leave the response and the folder that `Respond` gives.
- `Findings` holds the counterexample for the discrepancy below.

Three choices of abstraction:
- `os.path.exists(os.path.join("uploads", n))` holds for a stored name, and also for `""`, `"."` and `".."`, which name the folder itself and its parent. `Occupied(files)` is the stored names plus those three.
- `secure_filename` is the parameter `secure: string -> string`. Nothing is assumed about it, so no property here depends on what it does.
- File contents are byte sequences.

## Model

| member | source | states |
|---|---|---|
| Extensions.LastExtension | app.py:19 | `rsplit(".", 1)[1]` exists exactly when the name has a dot, and is then the text after the last dot (which holds no dot) |
| Extensions.AllowedFile | app.py:17-19 | a name without a dot is never allowed |
| Extensions.AllowedFileMeaning | app.py:17-19 | allowed exactly when the lower-cased text after the last dot is in `ALLOWED_EXTENSIONS` (both directions) |
| Extensions.LastExtensionOfLower | app.py:19 | lower-casing a name lower-cases its last extension and moves no dot |
| Extensions.AllowedFileIgnoresCase | app.py:19 | a name and its lower-cased form get the same verdict |
| Extensions.AllowedFileByExtension | app.py:19 | two names with the same lower-cased last extension get the same verdict |
| Extensions.UpperCaseImageAllowed | app.py:19 | `IMG.JPG` is accepted |
| Extensions.DoubleExtensionRefused | app.py:19 | `a.tar.gz` is refused: only the last extension counts |
| Extensions.ExecutableRefused | app.py:19 | `x.exe` is refused |
| Extensions.TrailingDotRefused | app.py:19 | `report.` is refused: its extension is empty |
| PathSplit.SplitExt | app.py:23 | `base + ext` is the name again |
| PathSplit.SplitExtAt | app.py:23 | when the last dot comes after the last `/` and a non-dot precedes it in the last component, the split falls at that dot |
| PathSplit.SplitExtNone | app.py:23 | otherwise (no such dot) the extension is empty and the base is the whole name |
| PathSplit.SplitExtShape | app.py:23 | the extension is empty, or a dot followed by neither dot nor `/`, after a last component holding a non-dot |
| PathSplit.SplitExtInsertBeforeExt | app.py:23-27 | text without `.` or `/` put between base and extension splits back into the longer base and the same extension |
| UniqueName.Candidate | app.py:27 | `f"{base}_{counter}{ext}"` is the name with `_` and the counter's digits inserted at the end of the base; see also `CandidateKeepsExtension` |
| UniqueName.ProbeInjective | app.py:27 | distinct counters give distinct candidates, and no candidate equals the original name |
| UniqueName.CandidateIsNew | app.py:27 | a renamed candidate is longer than, and differs from, the original name |
| UniqueName.ProbesBound | app.py:24-28 | if the first n probes are all taken, the folder has at least n entries (pigeonhole) |
| UniqueName.FreeNameFrom | app.py:26-28 | the probing from counter k ends on a free name, within `|existing|` probes, with every earlier probe taken |
| UniqueName.FreeName | app.py:21-29 | the result is not in the folder; a name not in the folder is returned unchanged |
| UniqueName.FreeNameIsProbe | app.py:24-28 | the result is the first free probe, found within `|existing| + 1` tries |
| UniqueName.FreeNameIsFirstFree | app.py:24-28 | a free probe preceded only by taken ones is the result (smallest free counter) |
| UniqueName.CandidateKeepsExtension | app.py:23-27 | a candidate splits into the ORIGINAL base plus `_k` and the original extension, so counters never pile up |
| UniqueName.FreeNameKeepsExtension | app.py:23-29 | the resolved name keeps the extension of the name asked for |
| UniqueName.UniqueFilename | app.py:21-29 | the probing loop returns exactly `FreeName` of the folder and the name |
| UniqueName.SplitExample | app.py:23 | `splitext("a.txt")` is `("a", ".txt")` |
| UniqueName.RenameExample | app.py:21-29 | with `a.txt` taken and `a_1.txt` free, `a.txt` becomes `a_1.txt` |
| UniqueName.SecondRenameExample | app.py:21-29 | with `a.txt` and `a_1.txt` taken, `a.txt` becomes `a_2.txt`, not `a_1_1.txt` |
| Preview.PreviewUrl | app.py:37-49 | an error exactly for a dotless name; otherwise the file's own URL `/{folder}/{filename}` or one of the three icons |
| Preview.AllowedFileHasPreview | app.py:37-39 | every name the upload form accepts has a preview |
| Preview.ImagePreview | app.py:40-41 | jpg, jpeg, png, gif, bmp and webp preview as the file itself |
| Preview.IconPreview | app.py:42-49 | for a non-image: the pdf icon exactly for pdf, the video icon exactly for mp4, the file icon exactly for everything else |
| Preview.MediaWithoutVideoIcon | app.py:44-49 | the allowed types mov, avi, mp3 and wav get the generic file icon |
| Preview.PreviewIgnoresCase | app.py:39 | lower-casing the name keeps the icon and keeps an image an image |
| Preview.ListingPreviewUrl | app.py:37-49 | the same preview wherever the source gives one, and the file icon for a dotless name |
| Preview.ListingPreviewTotal | app.py:54-58 | in the corrected listing (see Findings), every listed name gets the file's own URL or an icon, and an image stays its own preview |
| Intake.Occupied | app.py:26 | every stored name, and `""`, `"."`, `".."`, count as existing |
| Intake.Step | app.py:179-188 | one iteration of the loop never overwrites a stored file; see `StepCompletes` and `StepSaves` |
| Intake.RunLoop | app.py:178-188 | the loop over the files keeps every file stored before it; see the `Intake*` lemmas |
| Intake.NonEmptyMembers | app.py:179 | the uploads the loop acts on are exactly those with a non-empty name |
| Intake.Respond | app.py:168-190 | every response is 200 or 400, 200 exactly with the success body, and no file stored before the request changes; see `RespondStatus` |
| Intake.StepCompletes | app.py:179-183 | one iteration keeps going exactly when the name is empty or allowed |
| Intake.IntakeCompletes | app.py:178-183 | the loop finishes exactly when every non-empty raw name is allowed (both directions) |
| Intake.RejectionIsFinal | app.py:182-183 | once a file is refused, the files after it change nothing |
| Intake.FirstDisallowedRejects | app.py:178-183 | the first non-empty refused raw name is reported, and the folder keeps every file saved before it |
| Intake.StepSaves | app.py:185-188 | an accepted file is saved under a name free just before the save and recorded once |
| Intake.IntakeSavesOnePerFile | app.py:178-190 | on success there is one recorded name per non-empty upload |
| Intake.IntakeFolderNames | app.py:185-188 | afterwards the folder holds exactly its earlier names and the recorded names |
| Intake.IntakeAddsFreshNames | app.py:185-188 | each recorded name was free before the loop, no two coincide, and no earlier file changed |
| Intake.IntakeStoresContents | app.py:178-190 | the j-th recorded name holds the content of the j-th non-empty upload (input order) |
| Intake.IntakeKeepsExtensions | app.py:185-186 | every recorded name keeps the extension of the sanitized name it came from |
| Intake.RespondStatus | app.py:171-190 | status 200 exactly when the field is present, some name is non-empty and every non-empty raw name is allowed; a 200 lists the recorded names; an early refusal leaves the folder alone |
| Intake.RespondReportsFirstRefusal | app.py:178-183 | for any request holding a refused non-empty raw name, the 400 message names the first non-empty refused raw name, and the folder keeps the files saved before it |
| Intake.SingleUpload | app.py:178-188 | one accepted file is saved under its resolved name |
| Intake.SaveThenReject | app.py:178-188 | an accepted file followed by a refused one: the first is saved, then the loop stops on the second |
| Intake.SaveThenRejectResponse | app.py:171-190 | that request is answered 400 naming the refused file, and the first file stays saved |
| Intake.PlainTextAllowed | app.py:19 | `a.txt` is accepted |
| Intake.SingleUploadResponse | app.py:168-190 | one allowed file is answered 200 with the name it was saved under |
| Intake.FreshUploadKeepsName | app.py:168-190 | an allowed file whose sanitized name is free is stored under exactly that name |
| Intake.DuplicateUploadRenames | app.py:168-190 | re-uploading a stored sanitized name, with `base_1ext` free, stores the new content as `base_1ext` and keeps the old file |
| Intake.UploadFolder.constructor | app.py:11 | the folder starts with the given entries |
| Intake.UploadFolder.Save | app.py:187 | saving writes or replaces one entry and changes no other |
| Intake.UploadFile | app.py:168-190 | the handler's response and the folder afterwards are those `Respond` gives for the folder before |
| Text.Lower | app.py:19 | `.lower()` keeps the length and lower-cases each ASCII letter, leaving `.` and `/` in place; see `LowerIdempotent` |
| Text.RFind | app.py:19 | the index of the last occurrence, with no occurrence after it, or -1 when there is none |
| Text.Decimal | app.py:27 | `str(counter)` is non-empty, all digits, with no leading zero |
| Text.DecimalRoundTrip | app.py:27 | reading `str(n)` back gives `n` |
| Text.DecimalInjective | app.py:27 | distinct counters render differently |
| Findings.CyrillicPdfAllowed | app.py:182-183 | the raw name `отчет.pdf` passes the extension check |
| Findings.SanitizedUploadBreaksListing | app.py:182-188 | if sanitizing gives `pdf`, the upload succeeds and stores `pdf`, whose preview is an error |

## Left out

- The HTML pages and the listing markup, except that the listing calls the preview on each stored name. They are presentation.
- `get_file_size`: float division and `:.2f` formatting.
- The download and file-serving routes. Their path containment lives in werkzeug.
- The body of `secure_filename`: it is a foreign library call and is an uninterpreted parameter here. Names it returns are stored as plain keys, so a `/` in one is not treated as a subdirectory.
- `os.makedirs`, `os.listdir`, `os.path.exists` and `file.save` as real I/O. They are operations on the folder's `files` map.
- Flask setup, `jsonify` and `app.run`. A response is a status plus a message or error body.
- Concurrency: two requests racing between the existence check and the save. One request is modelled at a time.
- The downloads folder. Only the preview function it shares with uploads is modelled.
- A multipart part whose file name is absent (`None` in werkzeug). Here every upload has a string name.
- Text.Lower: models Python's `str.lower` on ASCII letters only.
  - The upload verdict is not affected: the one non-ASCII character that lower-cases to an ASCII letter is the Kelvin sign, which becomes `k`, and no allowed extension contains `k`.
  - A name that is lower-cased in Python to a different length is not modelled.

## Findings

The extension check reads the raw name, but the file is stored under the sanitized name. werkzeug's `secure_filename` drops non-ASCII letters and strips leading dots, so `отчет.pdf` becomes `pdf`. The upload is accepted and the folder gains a dotless name. From then on, building the folder listing calls `get_preview_url("pdf", "uploads")`. That call raises `IndexError`, so the front page fails for every visitor.

| source | as written | input that shows it | evidently intended | confidence | as-written member | corrected member |
|---|---|---|---|---|---|---|
| app.py:39 | `get_preview_url` indexes `rsplit(".", 1)[1]` on stored names, which need not contain a dot because the check ran on the raw name | upload `отчет.pdf` when `secure_filename` gives `pdf` | every stored file can be listed; a name without an extension gets the generic file icon | not executed; the `secure_filename` output is werkzeug's documented behaviour, not modelled | Findings.SanitizedUploadBreaksListing | Preview.ListingPreviewUrl |
