/** The student upload form (`components/Uploader.tsx`): PDF-only file
    selection, the completeness check shared by the submit handler and the
    submit button, the storage path, the inserted `files` row, the form reset
    after success and the classification of backend errors. The storage
    upload and the row insert are not performed here; their errors are inputs. */
module Uploader {
  import opened Wrappers
  import opened Types
  import opened Strings

  /** The choices of the unit `<select>`. */
  const Units: seq<string> := ["Unit 1", "Unit 2", "Unit 3", "Unit 4", "Unit 5"]

  const PdfType: string := "application/pdf"
  const OnlyPdfText: string := "Only PDF files are allowed"
  const IncompleteText: string := "Please complete all fields"
  const UploadedText: string := "File uploaded successfully!"
  const SchemaText: string := "Database needs updating. Run the setup SQL script provided in Dashboard."
  const DefaultErrorText: string := "Error uploading file"

  datatype Kind = Success | Error

  /** The status line under the form; `isSchemaError` is only set by the
      error classifier. */
  datatype Message = Message(kind: Kind, text: string, isSchemaError: Option<bool>)

  /** The browser `File` chosen in the picker: its name and MIME type. */
  datatype PickedFile = PickedFile(name: string, mimeType: string)

  /** The component's state; `category == None` is the empty placeholder. */
  datatype Form = Form(
    subjectId: string,
    category: Option<Category>,
    unitNo: string,
    studentName: string,
    rollNo: string,
    file: Option<PickedFile>,
    uploading: bool,
    message: Option<Message>)

  const Initial: Form := Form("", None, "", "", "", None, false, None)

  /** Assignments and Notes are filed by unit; Lab Resources are not. */
  predicate NeedsUnit(c: Option<Category>) {
    c == Some(Assignments) || c == Some(Notes)
  }

  /** The completeness check of the submit handler. */
  predicate Complete(f: Form) {
    !(f.subjectId == [] || f.category.None? || f.file.None? || f.studentName == []
      || f.rollNo == [] || (NeedsUnit(f.category) && f.unitNo == []))
  }

  /** The submit button's enabled state, written as its `disabled` attribute. */
  predicate SubmitEnabled(f: Form) {
    !(f.uploading || f.file.None? || f.subjectId == [] || f.category.None?
      || f.studentName == [] || f.rollNo == [] || (NeedsUnit(f.category) && f.unitNo == []))
  }

  /** The button is enabled exactly when no upload is running and the submit
      handler's own check would pass; the unit only matters for unit categories. */
  lemma SubmitEnabledIffComplete(f: Form)
    ensures SubmitEnabled(f) <==> !f.uploading && Complete(f)
    ensures SubmitEnabled(f) ==> f.file.Some? && f.subjectId != [] && f.category.Some?
    ensures SubmitEnabled(f) && f.category == Some(LabResources) ==>
              SubmitEnabled(f.(unitNo := []))
  {
  }

  /** `handleFileChange`: no selection changes nothing; a non-PDF clears the
      file and shows an error; a PDF is kept and clears the message. */
  function HandleFileChange(f: Form, picked: Option<PickedFile>): (r: Form)
    ensures picked.None? ==> r == f
    ensures picked.Some? && picked.value.mimeType != PdfType ==>
              r == f.(file := None, message := Some(Message(Error, OnlyPdfText, None)))
    ensures picked.Some? && picked.value.mimeType == PdfType ==>
              r == f.(file := picked, message := None)
  {
    match picked
    case None => f
    case Some(p) =>
      if p.mimeType != PdfType then f.(file := None, message := Some(Message(Error, OnlyPdfText, None)))
      else f.(file := picked, message := None)
  }

  /** The category `<select>`'s change handler: the option value picks the
      category and the chosen subject is always reset. */
  function ChangeCategory(f: Form, value: string): (r: Form)
    ensures r.subjectId == [] && r.category == ParseCategory(value)
    ensures r.(subjectId := f.subjectId, category := f.category) == f
  {
    f.(category := ParseCategory(value), subjectId := [])
  }

  /** The extension taken from a file name by `name.split('.').pop()`: the
      text after the last dot, or the whole name when it has no dot. */
  function Extension(name: string): (r: string)
    ensures forall k | 0 <= k < |r| :: r[k] != '.'
    ensures |r| <= |name| && r == name[|name| - |r|..]
    ensures |r| < |name| ==> name[|name| - |r| - 1] == '.'
    ensures (forall k | 0 <= k < |name| :: name[k] != '.') ==> r == name
  {
    name[LastIndexOf(name, '.') + 1..]
  }

  lemma {:induction false} SplitWithoutSeparator(s: string, sep: char)
    requires sep !in s
    ensures Split(s, sep) == [s]
  {
    if s != [] {
      SplitWithoutSeparator(s[1..], sep);
      assert [s[0]] + s[1..] == s;
    }
  }

  lemma {:induction false} SplitWithSeparator(s: string, sep: char)
    requires sep in s
    ensures |Split(s, sep)| > 1
  {
    if s[0] != sep {
      SplitWithSeparator(s[1..], sep);
    }
  }

  /** Where the last occurrence of `x` in a non-empty string lies, in terms
      of its tail. */
  lemma LastIndexOfTail(s: string, x: char)
    requires s != []
    ensures var l := LastIndexOf(s[1..], x);
            LastIndexOf(s, x) == (if l >= 0 then l + 1 else if s[0] == x then 0 else -1)
  {
    var t := s[1..];
    var l := LastIndexOf(t, x);
    assert forall k | 1 <= k < |s| :: s[k] == t[k - 1];
    if l >= 0 {
      assert s[l + 1] == x;
    } else if s[0] == x {
      assert s[0] == x;
    }
  }

  /** The piece `pop` returns after `split('.')`. */
  function LastPiece(name: string): string {
    var pieces := Split(name, '.');
    pieces[|pieces| - 1]
  }

  /** The last piece of a split is the last piece of the tail's split when
      the tail or the head holds a dot. */
  lemma {:induction false} LastPieceOfTail(name: string)
    requires name != [] && (name[0] == '.' || '.' in name[1..])
    ensures LastPiece(name) == LastPiece(name[1..])
  {
    if name[0] != '.' { SplitWithSeparator(name[1..], '.'); }
  }

  /** The extension of a name is its tail's when the tail or the head holds a dot. */
  lemma {:induction false} ExtensionOfTail(name: string)
    requires name != [] && (name[0] == '.' || '.' in name[1..])
    ensures Extension(name) == Extension(name[1..])
  {
    var t := name[1..];
    LastIndexOfTail(name, '.');
    var l := LastIndexOf(t, '.');
    if l < 0 {
      assert forall k | 0 <= k < |t| :: t[k] != '.';
    }
    assert name[l + 2..] == t[l + 1..];
  }

  lemma {:induction false} BothOfTail(name: string)
    requires name != [] && (name[0] == '.' || '.' in name[1..])
    ensures LastPiece(name) == LastPiece(name[1..])
    ensures Extension(name) == Extension(name[1..])
  {
    LastPieceOfTail(name);
    ExtensionOfTail(name);
  }

  lemma {:induction false} NoDotAnywhere(name: string)
    requires name != [] && name[0] != '.' && '.' !in name[1..]
    ensures LastPiece(name) == name && Extension(name) == name
  {
    assert name == [name[0]] + name[1..];
    assert '.' !in name;
    SplitWithoutSeparator(name, '.');
  }

  /** `Extension` is the last piece of `split('.')`, which is what `pop` returns. */
  lemma {:induction false} ExtensionIsLastPiece(name: string)
    ensures LastPiece(name) == Extension(name)
  {
    if name == [] {
      assert Split(name, '.') == [[]];
      assert Extension(name) == [];
    } else {
      if name[0] == '.' || '.' in name[1..] {
        ExtensionIsLastPiece(name[1..]);
        BothOfTail(name);
      } else {
        NoDotAnywhere(name);
      }
    }
  }

  /** A dot followed by dot-free text ends the extension of any string. */
  lemma ExtensionAfterDot(prefix: string, ext: string)
    requires forall k | 0 <= k < |ext| :: ext[k] != '.'
    ensures Extension(prefix + "." + ext) == ext
  {
    var s := prefix + "." + ext;
    assert s[|prefix|] == '.';
    assert forall k | |prefix| < k < |s| :: s[k] == ext[k - |prefix| - 1];
    assert LastIndexOf(s, '.') == |prefix|;
    assert s[|prefix| + 1..] == ext;
  }

  /** The first `/` of `folder + "/" + rest` is the one after a slash-free folder. */
  lemma FirstSlash(folder: string, rest: string)
    requires forall k | 0 <= k < |folder| :: folder[k] != '/'
    ensures IndexOf(folder + "/" + rest, '/') == |folder|
  {
    var s := folder + "/" + rest;
    assert s[|folder|] == '/';
    assert forall k | 0 <= k < |folder| :: s[k] == folder[k];
  }

  lemma CategoryNameHasNoSlash(c: Category)
    ensures forall k | 0 <= k < |CategoryName(c)| :: CategoryName(c)[k] != '/'
  {
  }

  /** The facts about a storage path, proved once for the path's shape. */
  lemma StoragePathShape(folder: string, randomName: string, ext: string)
    requires forall k | 0 <= k < |folder| :: folder[k] != '/'
    requires forall k | 0 <= k < |ext| :: ext[k] != '.'
    ensures var r := folder + "/" + (randomName + "." + ext);
            && |r| > |folder| && r[..|folder| + 1] == folder + "/"
            && IndexOf(r, '/') == |folder|
            && Extension(r) == ext
  {
    var r := folder + "/" + (randomName + "." + ext);
    ExtensionAfterDot(folder + "/" + randomName, ext);
    assert folder + "/" + randomName + "." + ext == r;
    FirstSlash(folder, randomName + "." + ext);
    assert r[..|folder| + 1] == folder + "/";
  }

  /** The storage object path: the category folder, then the random name and
      the original extension. */
  function StoragePath(c: Category, randomName: string, fileName: string): (r: string)
    ensures |r| > |CategoryName(c)| && r[..|CategoryName(c)| + 1] == CategoryName(c) + "/"
    ensures IndexOf(r, '/') == |CategoryName(c)|
    ensures Extension(r) == Extension(fileName)
  {
    CategoryNameHasNoSlash(c);
    StoragePathShape(CategoryName(c), randomName, Extension(fileName));
    CategoryName(c) + "/" + (randomName + "." + Extension(fileName))
  }

  /** The row inserted into the `files` table. */
  datatype FileRow = FileRow(
    subjectId: string,
    category: Category,
    fileName: string,
    fileUrl: string,
    studentName: string,
    rollNo: string,
    unitNo: Option<string>,
    uploadedAt: string)

  /** The row built from a complete form, the public URL of the stored object
      and the upload time. */
  function BuildRow(f: Form, publicUrl: string, now: string): (r: FileRow)
    requires Complete(f)
    ensures r.subjectId == f.subjectId && r.category == f.category.value
    ensures r.fileName == f.file.value.name && r.fileUrl == publicUrl && r.uploadedAt == now
    ensures r.studentName == f.studentName && r.rollNo == f.rollNo
    ensures r.unitNo.Some? <==> NeedsUnit(f.category)
    ensures r.unitNo.Some? ==> r.unitNo.value == f.unitNo && r.unitNo.value != []
  {
    FileRow(f.subjectId, f.category.value, f.file.value.name, publicUrl, f.studentName, f.rollNo,
            if NeedsUnit(f.category) then Some(f.unitNo) else None, now)
  }

  /** An error raised by the storage upload or the row insert; its `message`
      may be undefined. */
  datatype BackendError = BackendError(message: Option<string>)

  /** The error text mentions a missing column or a stale schema cache. */
  predicate IsSchemaError(e: BackendError) {
    e.message.Some? && (Includes(e.message.value, "column") || Includes(e.message.value, "cache"))
  }

  /** The catch block's message: schema problems get the fixed setup text,
      anything else shows its own message, or a default when it has none.
      Without a message the schema flag is left undefined, as the optional
      chain in the test yields `undefined`. */
  function ClassifyError(e: BackendError): (r: Message)
    ensures r.kind == Error
    ensures r.isSchemaError.None? <==> e.message.None?
    ensures r.isSchemaError.Some? ==> r.isSchemaError.value == IsSchemaError(e)
    ensures IsSchemaError(e) ==> r.text == SchemaText
    ensures !IsSchemaError(e) && e.message.Some? && e.message.value != [] ==> r.text == e.message.value
    ensures !IsSchemaError(e) && (e.message.None? || e.message.value == []) ==> r.text == DefaultErrorText
    ensures r.text != []
  {
    var schema := IsSchemaError(e);
    var text :=
      if schema then SchemaText
      else if e.message.None? || e.message.value == [] then DefaultErrorText
      else e.message.value;
    Message(Error, text, if e.message.None? then None else Some(schema))
  }

  /** What a submit did: the form afterwards, the path stored in the bucket
      if the upload succeeded, and the row inserted if the insert succeeded. */
  datatype SubmitResult = SubmitResult(form: Form, stored: Option<string>, inserted: Option<FileRow>)

  /** `handleSubmit`. `randomName` stands for `Math.random()`, `now` for the
      upload time, `publicUrl` for the bucket's URL of the stored object;
      `storageError` and `insertError` are the two backend calls' errors. */
  function HandleSubmit(
    f: Form, randomName: string, publicUrl: string, now: string,
    storageError: Option<BackendError>, insertError: Option<BackendError>): (r: SubmitResult)
    ensures !Complete(f) ==>
              r == SubmitResult(f.(message := Some(Message(Error, IncompleteText, None))), None, None)
    ensures r.stored.Some? <==> Complete(f) && storageError.None?
    ensures r.inserted.Some? <==> Complete(f) && storageError.None? && insertError.None?
    ensures r.stored.Some? ==> r.stored.value == StoragePath(f.category.value, randomName, f.file.value.name)
    ensures r.inserted.Some? ==> r.inserted.value == BuildRow(f, publicUrl, now)
    ensures Complete(f) ==> !r.form.uploading
    ensures r.inserted.Some? ==>
              r.form == f.(file := None, subjectId := [], unitNo := [], uploading := false,
                           message := Some(Message(Success, UploadedText, None)))
    ensures Complete(f) && storageError.Some? ==>
              r.form == f.(uploading := false, message := Some(ClassifyError(storageError.value)))
    ensures Complete(f) && storageError.None? && insertError.Some? ==>
              r.form == f.(uploading := false, message := Some(ClassifyError(insertError.value)))
  {
    if !Complete(f) then
      SubmitResult(f.(message := Some(Message(Error, IncompleteText, None))), None, None)
    else
      var path := StoragePath(f.category.value, randomName, f.file.value.name);
      match storageError
      case Some(e) => SubmitResult(f.(uploading := false, message := Some(ClassifyError(e))), None, None)
      case None =>
        match insertError
        case Some(e) => SubmitResult(f.(uploading := false, message := Some(ClassifyError(e))), Some(path), None)
        case None =>
          var done := f.(file := None, subjectId := [], unitNo := [], uploading := false,
                         message := Some(Message(Success, UploadedText, None)));
          SubmitResult(done, Some(path), Some(BuildRow(f, publicUrl, now)))
  }

  /** The form never holds a file that is not a PDF. */
  predicate HoldsOnlyPdf(f: Form) {
    f.file.Some? ==> f.file.value.mimeType == PdfType
  }

  /** Every handler keeps the PDF-only invariant, so every stored object and
      inserted row comes from a PDF. */
  lemma HandlersKeepOnlyPdf(
    f: Form, picked: Option<PickedFile>, value: string,
    randomName: string, publicUrl: string, now: string,
    storageError: Option<BackendError>, insertError: Option<BackendError>)
    requires HoldsOnlyPdf(f)
    ensures HoldsOnlyPdf(HandleFileChange(f, picked))
    ensures HoldsOnlyPdf(ChangeCategory(f, value))
    ensures var r := HandleSubmit(f, randomName, publicUrl, now, storageError, insertError);
            HoldsOnlyPdf(r.form) && (r.inserted.Some? ==> f.file.value.mimeType == PdfType)
  {
  }

  /** After a successful upload the form is ready for the next file of the
      same category by the same student: it is incomplete again until a new
      file and subject are chosen, and re-choosing them with the previous unit
      makes it complete. */
  lemma SuccessResetsForNextUpload(
    f: Form, randomName: string, publicUrl: string, now: string, next: PickedFile)
    requires Complete(f) && next.mimeType == PdfType
    ensures var g := HandleSubmit(f, randomName, publicUrl, now, None, None).form;
            && !Complete(g)
            && g.category == f.category && g.studentName == f.studentName && g.rollNo == f.rollNo
            && Complete(HandleFileChange(g, Some(next)).(subjectId := f.subjectId, unitNo := f.unitNo))
  {
  }
}
