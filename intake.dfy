/**
  The `/upload` handler, `upload_file`: check the request, then for each
  submitted file in order skip an empty name, fail fast on a disallowed raw
  name, otherwise sanitize it, resolve a free name against the folder as it
  is at that moment, save, and record the name.

  The upload folder is an object whose `files` map (name to content) the
  handler changes in place; `secure_filename` is the parameter `secure`.
 */
module Intake {
  import opened Wrappers
  import opened PathSplit
  import opened Extensions
  import opened Text
  import opened UniqueName

  type Bytes = seq<bv8>

  /** One entry of the multipart field `files`. */
  datatype Upload = Upload(filename: string, content: Bytes)

  datatype Body = Uploaded(message: string, files: seq<string>) | Failed(error: string)

  datatype Response = Response(status: int, body: Body)

  /**
    The names `os.path.exists(os.path.join(UPLOAD_FOLDER, n))` reports: the
    stored files, and also "", "." and "..", which name the folder itself and
    its parent.
   */
  function Occupied(files: map<string, Bytes>): (s: set<string>)
    ensures forall n :: n in files ==> n in s
    ensures "" in s && "." in s && ".." in s
  {
    files.Keys + {"", ".", ".."}
  }

  /** Progress of the loop: the names saved so far, or the raw name that stopped it. */
  datatype Outcome = Completed(saved: seq<string>) | Rejected(filename: string)

  datatype State = State(outcome: Outcome, files: map<string, Bytes>)

  /** One iteration of the loop over the submitted files. It never overwrites a stored file. */
  function Step(st: State, u: Upload, secure: string -> string): (r: State)
    ensures forall n :: n in st.files ==> n in r.files && r.files[n] == st.files[n]
  {
    if st.outcome.Rejected? || u.filename == "" then st
    else if !AllowedFile(u.filename) then State(Rejected(u.filename), st.files)
    else
      var name := FreeName(Occupied(st.files), secure(u.filename));
      State(Completed(st.outcome.saved + [name]), st.files[name := u.content])
  }

  /** The loop run over `uploads` from the folder contents `files`. */
  function RunLoop(files: map<string, Bytes>, uploads: seq<Upload>, secure: string -> string): (r: State)
    ensures forall n :: n in files ==> n in r.files && r.files[n] == files[n]
    decreases |uploads|
  {
    if uploads == [] then State(Completed([]), files)
    else Step(RunLoop(files, uploads[..|uploads| - 1], secure), uploads[|uploads| - 1], secure)
  }

  /** The submitted files whose name is not empty, in order. */
  function NonEmpty(uploads: seq<Upload>): (r: seq<Upload>)
    ensures |r| <= |uploads|
    ensures forall j :: 0 <= j < |r| ==> r[j].filename != ""
  {
    if uploads == [] then []
    else
      var last := uploads[|uploads| - 1];
      NonEmpty(uploads[..|uploads| - 1]) + (if last.filename == "" then [] else [last])
  }

  /** The uploads kept are exactly those with a non-empty name. */
  lemma {:induction false} NonEmptyMembers(uploads: seq<Upload>)
    ensures forall u :: u in NonEmpty(uploads) <==> u in uploads && u.filename != ""
  {
    if uploads != [] {
      var init := uploads[..|uploads| - 1];
      NonEmptyMembers(init);
      assert uploads == init + [uploads[|uploads| - 1]];
    }
  }

  predicate AllNamesEmpty(uploads: seq<Upload>) {
    forall i :: 0 <= i < |uploads| ==> uploads[i].filename == ""
  }

  /**
    The whole handler: the response and the folder afterwards. `request` is
    `None` when the form has no `files` field.
   */
  function Respond(files: map<string, Bytes>, request: Option<seq<Upload>>, secure: string -> string)
    : (r: (Response, map<string, Bytes>))
    ensures r.0.status == 200 || r.0.status == 400
    ensures r.0.status == 200 <==> r.0.body.Uploaded?
    ensures forall n :: n in files ==> n in r.1 && r.1[n] == files[n]
  {
    match request
    case None => (Response(400, Failed("No file part")), files)
    case Some(uploads) =>
      if uploads == [] || AllNamesEmpty(uploads) then
        (Response(400, Failed("No selected file")), files)
      else
        var st := RunLoop(files, uploads, secure);
        match st.outcome
        case Rejected(name) => (Response(400, Failed("File type not allowed: " + name)), st.files)
        case Completed(saved) =>
          (Response(200, Uploaded("Files uploaded successfully", saved)), st.files)
  }

  lemma StepCompletes(st: State, u: Upload, secure: string -> string)
    ensures Step(st, u, secure).outcome.Completed?
      <==> st.outcome.Completed? && (u.filename != "" ==> AllowedFile(u.filename))
  {
  }

  /** The loop finishes without rejection exactly when every non-empty raw name is allowed. */
  lemma {:induction false} IntakeCompletes(files: map<string, Bytes>, uploads: seq<Upload>,
                                           secure: string -> string)
    ensures RunLoop(files, uploads, secure).outcome.Completed?
      <==> forall i :: 0 <= i < |uploads| && uploads[i].filename != "" ==> AllowedFile(uploads[i].filename)
  {
    if uploads != [] {
      var init := uploads[..|uploads| - 1];
      var u := uploads[|uploads| - 1];
      StepCompletes(RunLoop(files, init, secure), u, secure);
      IntakeCompletes(files, init, secure);
      assert forall i :: 0 <= i < |init| ==> init[i] == uploads[i];
    }
  }

  /** The loop over one more file is one more step. */
  lemma IntakePrefixStep(files: map<string, Bytes>, uploads: seq<Upload>, secure: string -> string, i: nat)
    requires i < |uploads|
    ensures RunLoop(files, uploads[..i + 1], secure) == Step(RunLoop(files, uploads[..i], secure), uploads[i], secure)
  {
    assert uploads[..i + 1][..i] == uploads[..i];
  }

  /** Once a file is rejected, the files after it change nothing. */
  lemma {:induction false} RejectionIsFinal(files: map<string, Bytes>, uploads: seq<Upload>,
                                            secure: string -> string, i: nat)
    requires i <= |uploads|
    requires RunLoop(files, uploads[..i], secure).outcome.Rejected?
    ensures RunLoop(files, uploads, secure) == RunLoop(files, uploads[..i], secure)
    decreases |uploads| - i
  {
    if i < |uploads| {
      IntakePrefixStep(files, uploads, secure, i);
      RejectionIsFinal(files, uploads, secure, i + 1);
    } else {
      assert uploads[..i] == uploads;
    }
  }

  /**
    Fail fast, without rollback: the first non-empty disallowed raw name is
    the one reported, and the folder keeps every file saved before it.
   */
  lemma FirstDisallowedRejects(files: map<string, Bytes>, uploads: seq<Upload>,
                               secure: string -> string, i: nat)
    requires i < |uploads| && uploads[i].filename != "" && !AllowedFile(uploads[i].filename)
    requires forall j :: 0 <= j < i && uploads[j].filename != "" ==> AllowedFile(uploads[j].filename)
    ensures RunLoop(files, uploads[..i], secure).outcome.Completed?
    ensures RunLoop(files, uploads, secure)
            == State(Rejected(uploads[i].filename), RunLoop(files, uploads[..i], secure).files)
  {
    var prefix := uploads[..i];
    IntakeCompletes(files, prefix, secure);
    assert uploads[..i + 1][..i] == prefix;
    RejectionIsFinal(files, uploads, secure, i + 1);
  }

  /** A completed step after a completed state: the name it saved, and the new folder. */
  lemma StepSaves(st: State, u: Upload, secure: string -> string)
    requires st.outcome.Completed? && u.filename != "" && AllowedFile(u.filename)
    ensures var name := FreeName(Occupied(st.files), secure(u.filename));
      && name !in Occupied(st.files)
      && Step(st, u, secure) == State(Completed(st.outcome.saved + [name]), st.files[name := u.content])
  {
  }

  lemma NonEmptyStep(uploads: seq<Upload>)
    requires uploads != []
    ensures var u := uploads[|uploads| - 1];
      NonEmpty(uploads) == NonEmpty(uploads[..|uploads| - 1]) + (if u.filename == "" then [] else [u])
  {
  }

  /** One saved name per non-empty upload. */
  lemma {:induction false} IntakeSavesOnePerFile(files: map<string, Bytes>, uploads: seq<Upload>,
                                                 secure: string -> string)
    requires RunLoop(files, uploads, secure).outcome.Completed?
    ensures |RunLoop(files, uploads, secure).outcome.saved| == |NonEmpty(uploads)|
  {
    if uploads != [] {
      var init := uploads[..|uploads| - 1];
      var u := uploads[|uploads| - 1];
      StepCompletes(RunLoop(files, init, secure), u, secure);
      IntakeSavesOnePerFile(files, init, secure);
      NonEmptyStep(uploads);
    }
  }

  /**
    The folder afterwards holds exactly the names it held before and the
    saved names.
   */
  lemma {:induction false} IntakeFolderNames(files: map<string, Bytes>, uploads: seq<Upload>,
                                             secure: string -> string)
    requires RunLoop(files, uploads, secure).outcome.Completed?
    ensures var st := RunLoop(files, uploads, secure);
      forall n :: n in st.files <==> n in files || n in st.outcome.saved
  {
    if uploads != [] {
      var init := uploads[..|uploads| - 1];
      var u := uploads[|uploads| - 1];
      var prev := RunLoop(files, init, secure);
      StepCompletes(prev, u, secure);
      IntakeFolderNames(files, init, secure);
      if u.filename != "" {
        StepSaves(prev, u, secure);
      }
    }
  }

  /**
    Each saved name was free before the loop, no two saved names coincide,
    and no file that was there before changed.
   */
  lemma {:induction false} IntakeAddsFreshNames(files: map<string, Bytes>, uploads: seq<Upload>,
                                                secure: string -> string)
    requires RunLoop(files, uploads, secure).outcome.Completed?
    ensures var st := RunLoop(files, uploads, secure);
      var saved := st.outcome.saved;
      && (forall j :: 0 <= j < |saved| ==> saved[j] !in Occupied(files))
      && (forall j, k :: 0 <= j < k < |saved| ==> saved[j] != saved[k])
      && (forall n :: n in files ==> n in st.files && st.files[n] == files[n])
  {
    if uploads != [] {
      var init := uploads[..|uploads| - 1];
      var u := uploads[|uploads| - 1];
      var prev := RunLoop(files, init, secure);
      StepCompletes(prev, u, secure);
      IntakeAddsFreshNames(files, init, secure);
      if u.filename != "" {
        IntakeFolderNames(files, init, secure);
        StepSaves(prev, u, secure);
        var name := FreeName(Occupied(prev.files), secure(u.filename));
        assert name !in files && name !in prev.outcome.saved;
      }
    }
  }

  /** The j-th saved name holds the content of the j-th non-empty upload. */
  lemma {:induction false} IntakeStoresContents(files: map<string, Bytes>, uploads: seq<Upload>,
                                                secure: string -> string)
    requires RunLoop(files, uploads, secure).outcome.Completed?
    ensures var st := RunLoop(files, uploads, secure);
      |st.outcome.saved| == |NonEmpty(uploads)|
      && forall j :: 0 <= j < |st.outcome.saved| ==>
           st.outcome.saved[j] in st.files && st.files[st.outcome.saved[j]] == NonEmpty(uploads)[j].content
  {
    IntakeSavesOnePerFile(files, uploads, secure);
    if uploads != [] {
      var init := uploads[..|uploads| - 1];
      var u := uploads[|uploads| - 1];
      var prev := RunLoop(files, init, secure);
      StepCompletes(prev, u, secure);
      IntakeStoresContents(files, init, secure);
      NonEmptyStep(uploads);
      if u.filename != "" {
        StepSaves(prev, u, secure);
        var st := RunLoop(files, uploads, secure);
        var ne := NonEmpty(uploads);
        forall j | 0 <= j < |st.outcome.saved|
          ensures st.outcome.saved[j] in st.files && st.files[st.outcome.saved[j]] == ne[j].content
        {
          if j < |prev.outcome.saved| {
            assert st.outcome.saved[j] == prev.outcome.saved[j];
            assert ne[j] == NonEmpty(init)[j];
          }
        }
      }
    }
  }

  /** Every saved name keeps the extension of the sanitized name it came from. */
  lemma {:induction false} IntakeKeepsExtensions(files: map<string, Bytes>, uploads: seq<Upload>,
                                                 secure: string -> string)
    requires RunLoop(files, uploads, secure).outcome.Completed?
    ensures var saved := RunLoop(files, uploads, secure).outcome.saved;
      |saved| == |NonEmpty(uploads)|
      && forall j :: 0 <= j < |saved| ==>
           SplitExt(saved[j]).1 == SplitExt(secure(NonEmpty(uploads)[j].filename)).1
  {
    IntakeSavesOnePerFile(files, uploads, secure);
    if uploads != [] {
      var init := uploads[..|uploads| - 1];
      var u := uploads[|uploads| - 1];
      var prev := RunLoop(files, init, secure);
      StepCompletes(prev, u, secure);
      IntakeKeepsExtensions(files, init, secure);
      NonEmptyStep(uploads);
      if u.filename != "" {
        StepSaves(prev, u, secure);
        FreeNameKeepsExtension(Occupied(prev.files), secure(u.filename));
      }
    }
  }

  /**
    The status is 200 exactly when the field is present, some name is not
    empty and every non-empty raw name is allowed; a 200 lists the names the
    loop saved. A request refused before the loop leaves the folder alone.
   */
  lemma RespondStatus(files: map<string, Bytes>, request: Option<seq<Upload>>, secure: string -> string)
    ensures Respond(files, request, secure).0.status == 200
      <==> request.Some? && !AllNamesEmpty(request.value)
           && forall i :: 0 <= i < |request.value| && request.value[i].filename != ""
                ==> AllowedFile(request.value[i].filename)
    ensures Respond(files, request, secure).0.status == 200 ==>
      Respond(files, request, secure).0.body
      == Uploaded("Files uploaded successfully", RunLoop(files, request.value, secure).outcome.saved)
    ensures request.None? || AllNamesEmpty(request.value) ==> Respond(files, request, secure).1 == files
  {
    if request.Some? {
      IntakeCompletes(files, request.value, secure);
    }
  }

  /** The folder `uploads/`, whose entries the handler adds to. */
  class UploadFolder {
    var files: map<string, Bytes>

    constructor (initial: map<string, Bytes>)
      ensures files == initial
    {
      files := initial;
    }

    /** What `os.path.exists` reports inside this folder. */
    function Existing(): set<string>
      reads this
    {
      Occupied(files)
    }

    /** `file.save(os.path.join(UPLOAD_FOLDER, name))`: write or replace one entry. */
    method Save(name: string, content: Bytes)
      modifies this
      ensures files == old(files)[name := content]
    {
      files := files[name := content];
    }
  }

  /** `upload_file` against the folder object. */
  method UploadFile(folder: UploadFolder, request: Option<seq<Upload>>, secure: string -> string)
    returns (response: Response)
    modifies folder
    ensures (response, folder.files) == Respond(old(folder.files), request, secure)
  {
    if request.None? {
      return Response(400, Failed("No file part"));
    }
    var uploads := request.value;
    if uploads == [] || AllNamesEmpty(uploads) {
      return Response(400, Failed("No selected file"));
    }
    var uploaded: seq<string> := [];
    for i := 0 to |uploads|
      invariant RunLoop(old(folder.files), uploads[..i], secure) == State(Completed(uploaded), folder.files)
    {
      IntakePrefixStep(old(folder.files), uploads, secure, i);
      var file := uploads[i];
      if file.filename == "" {
        continue;
      }
      if !AllowedFile(file.filename) {
        RejectionIsFinal(old(folder.files), uploads, secure, i + 1);
        return Response(400, Failed("File type not allowed: " + file.filename));
      }
      ghost var before := State(Completed(uploaded), folder.files);
      var filename := secure(file.filename);
      var uniqueFilename := UniqueFilename(folder.Existing(), filename);
      StepSaves(before, file, secure);
      folder.Save(uniqueFilename, file.content);
      uploaded := uploaded + [uniqueFilename];
    }
    assert uploads[..|uploads|] == uploads;
    return Response(200, Uploaded("Files uploaded successfully", uploaded));
  }

  lemma PlainTextAllowed()
    ensures AllowedFile("a.txt")
  {
    RFindAt("a.txt", '.', 1);
    assert Lower("txt") == "txt";
  }

  /** The response when the loop runs: 200 with the saved names, or 400 naming the rejected file. */
  lemma RespondAfterLoop(files: map<string, Bytes>, uploads: seq<Upload>, secure: string -> string)
    requires !AllNamesEmpty(uploads)
    ensures var st := RunLoop(files, uploads, secure);
      Respond(files, Some(uploads), secure)
      == match st.outcome
         case Rejected(name) => (Response(400, Failed("File type not allowed: " + name)), st.files)
         case Completed(saved) => (Response(200, Uploaded("Files uploaded successfully", saved)), st.files)
  {
  }

  /** A batch of one allowed file saves it under its resolved name. */
  lemma SingleUpload(files: map<string, Bytes>, u: Upload, secure: string -> string)
    requires u.filename != "" && AllowedFile(u.filename)
    ensures var name := FreeName(Occupied(files), secure(u.filename));
      RunLoop(files, [u], secure) == State(Completed([name]), files[name := u.content])
  {
    var us := [u];
    var st0 := State(Completed([]), files);
    assert RunLoop(files, us[..0], secure) == st0 by {
      assert us[..0] == [];
    }
    assert RunLoop(files, us, secure) == Step(st0, u, secure) by {
      IntakePrefixStep(files, us, secure, 0);
      assert us[..1] == us;
    }
    StepSaves(st0, u, secure);
    assert st0.outcome.saved + [FreeName(Occupied(files), secure(u.filename))]
           == [FreeName(Occupied(files), secure(u.filename))];
  }

  /** A request carrying one allowed file is answered 200 with the one name it was saved under. */
  lemma SingleUploadResponse(files: map<string, Bytes>, u: Upload, secure: string -> string)
    requires u.filename != "" && AllowedFile(u.filename)
    ensures var name := FreeName(Occupied(files), secure(u.filename));
      Respond(files, Some([u]), secure)
      == (Response(200, Uploaded("Files uploaded successfully", [name])), files[name := u.content])
  {
    SingleUpload(files, u, secure);
    assert !AllNamesEmpty([u]) by {
      assert [u][0].filename != "";
    }
    RespondAfterLoop(files, [u], secure);
  }

  /** An allowed file whose sanitized name is free is stored under exactly that name. */
  lemma FreshUploadKeepsName(files: map<string, Bytes>, u: Upload, secure: string -> string)
    requires u.filename != "" && AllowedFile(u.filename)
    requires secure(u.filename) !in Occupied(files)
    ensures Respond(files, Some([u]), secure)
            == (Response(200, Uploaded("Files uploaded successfully", [secure(u.filename)])),
                files[secure(u.filename) := u.content])
  {
    SingleUploadResponse(files, u, secure);
  }

  /**
    Uploading a file whose sanitized name is already stored, while its first
    candidate `base_1ext` is not, stores the new content under that
    candidate and keeps the stored file.
   */
  lemma DuplicateUploadRenames(files: map<string, Bytes>, u: Upload, secure: string -> string)
    requires u.filename != "" && AllowedFile(u.filename)
    requires secure(u.filename) in files && Candidate(secure(u.filename), 1) !in files
    ensures var name := Candidate(secure(u.filename), 1);
      Respond(files, Some([u]), secure)
      == (Response(200, Uploaded("Files uploaded successfully", [name])), files[name := u.content])
  {
    var n := secure(u.filename);
    var c := Candidate(n, 1);
    assert c[|SplitExt(n).0|] == '_';
    assert c != "" && c != "." && c != "..";
    FreeNameIsFirstFree(Occupied(files), n, 1);
    SingleUploadResponse(files, u, secure);
  }

  /**
    For any request that reaches the loop, the first non-empty raw name that
    is refused is the one the 400 response names, and the folder keeps every
    file saved before it.
   */
  lemma RespondReportsFirstRefusal(files: map<string, Bytes>, uploads: seq<Upload>,
                                   secure: string -> string, i: nat)
    requires i < |uploads| && uploads[i].filename != "" && !AllowedFile(uploads[i].filename)
    requires forall j :: 0 <= j < i && uploads[j].filename != "" ==> AllowedFile(uploads[j].filename)
    ensures Respond(files, Some(uploads), secure)
            == (Response(400, Failed("File type not allowed: " + uploads[i].filename)),
                RunLoop(files, uploads[..i], secure).files)
  {
    FirstDisallowedRejects(files, uploads, secure, i);
    assert !AllNamesEmpty(uploads);
    RespondAfterLoop(files, uploads, secure);
  }

  /** An allowed file followed by a refused one: the first is saved, then the loop stops. */
  lemma SaveThenReject(files: map<string, Bytes>, u0: Upload, u1: Upload, secure: string -> string)
    requires u0.filename != "" && AllowedFile(u0.filename)
    requires u1.filename != "" && !AllowedFile(u1.filename)
    ensures var name := FreeName(Occupied(files), secure(u0.filename));
      RunLoop(files, [u0, u1], secure) == State(Rejected(u1.filename), files[name := u0.content])
  {
    var uploads := [u0, u1];
    SingleUpload(files, u0, secure);
    assert uploads[..1] == [u0];
    IntakePrefixStep(files, uploads, secure, 1);
    assert uploads[..2] == uploads;
  }

  /**
    Fail fast without rollback: with an allowed file followed by a refused
    one, the response names the refused file and the folder keeps the first.
   */
  lemma SaveThenRejectResponse(files: map<string, Bytes>, u0: Upload, u1: Upload, secure: string -> string)
    requires u0.filename != "" && AllowedFile(u0.filename)
    requires u1.filename != "" && !AllowedFile(u1.filename)
    ensures var name := FreeName(Occupied(files), secure(u0.filename));
      Respond(files, Some([u0, u1]), secure)
      == (Response(400, Failed("File type not allowed: " + u1.filename)), files[name := u0.content])
  {
    SaveThenReject(files, u0, u1, secure);
    assert !AllNamesEmpty([u0, u1]) by {
      assert [u0, u1][0].filename != "";
    }
    RespondAfterLoop(files, [u0, u1], secure);
  }
}
