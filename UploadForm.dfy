/** The resume upload widget: a client-side validator for the chosen file and
    the small state machine that drag and drop and the upload button drive. */
module UploadForm {
  import opened Wrappers
  import opened Decimal

  // ---------------------------------------------------------------------------
  // Constants of the component

  /** The size ceiling, 2 MiB, in bytes. */
  const MaxFileSize: nat := 2 * 1024 * 1024

  const PdfType: string := "application/pdf"
  const DocxType: string := "application/vnd.openxmlformats-officedocument.wordprocessingml.document"

  /** The MIME whitelist. */
  const ValidTypes: seq<string> := [PdfType, DocxType]

  const NoFileMessage: string := "No file selected."
  const InvalidTypeMessage: string := "Only PDF or DOCX files are allowed."
  const TooLargeMessage: string := "File is too large. Max size is 2 MB."
  const NoFileForUploadMessage: string := "Please select a resume file first."
  const ParsingFailedMessage: string := "Parsing failed. Try again."
  const NetworkErrorMessage: string := "Network or server error. Please try again."

  /** The keys the widget writes in the browser's local storage. */
  const ParsedDataKey: string := "parsedData"
  const AnalyzedCountKey: string := "analyzedCount"
  const LastUploadedFileNameKey: string := "lastUploadedFileName"

  // ---------------------------------------------------------------------------
  // Files and their validation

  /** The three attributes of a browser `File` that the widget reads. */
  datatype FileInfo = FileInfo(name: string, mimeType: string, size: nat)

  /** A file the widget keeps as its selection: a whitelisted type and at most
      `MaxFileSize` bytes (the size test is a strict `>`, so the bound itself
      is allowed). */
  predicate Acceptable(f: FileInfo) {
    (f.mimeType == PdfType || f.mimeType == DocxType) && f.size <= MaxFileSize
  }

  /** What one validation leaves behind: a selected file or an error message,
      never both. */
  datatype Selection = Selected(file: FileInfo) | Rejected(message: string)

  /** The validation decision. The rules are tried in order and the first
      that matches decides: no file, then a type outside the whitelist, then
      a size over the ceiling. */
  function Validate(candidate: Option<FileInfo>): (v: Selection)
    ensures v.Selected? <==> candidate.Some? && Acceptable(candidate.value)
    ensures v.Selected? ==> v.file == candidate.value
    ensures v.Rejected? ==> v.message != ""
    ensures candidate.None? ==> v == Rejected(NoFileMessage)
    ensures candidate.Some? && candidate.value.mimeType != PdfType && candidate.value.mimeType != DocxType
            ==> v == Rejected(InvalidTypeMessage)
    ensures candidate.Some? && candidate.value.mimeType in {PdfType, DocxType} && candidate.value.size > MaxFileSize
            ==> v == Rejected(TooLargeMessage)
  {
    match candidate
    case None => Rejected(NoFileMessage)
    case Some(f) =>
      if f.mimeType !in ValidTypes then Rejected(InvalidTypeMessage)
      else if f.size > MaxFileSize then Rejected(TooLargeMessage)
      else Selected(f)
  }

  /** The size bound is inclusive: every whitelisted file of at most 2 MiB is
      accepted, one byte more is refused with the size message. */
  lemma SizeBoundInclusive(name: string, mimeType: string, size: nat)
    requires mimeType in ValidTypes
    ensures Validate(Some(FileInfo(name, mimeType, size))).Selected? <==> size <= 2 * 1024 * 1024
    ensures Validate(Some(FileInfo(name, mimeType, 2 * 1024 * 1024 + 1))) == Rejected(TooLargeMessage)
  {
  }

  /** Only the type and the size matter: two files that agree on them get the
      same verdict, whatever their names. */
  lemma VerdictIgnoresName(f: FileInfo, g: FileInfo)
    requires f.mimeType == g.mimeType && f.size == g.size
    ensures Validate(Some(f)).Selected? == Validate(Some(g)).Selected?
    ensures Validate(Some(f)).Rejected? ==> Validate(Some(f)) == Validate(Some(g))
  {
  }

  /** A file accepted at some size is accepted at every smaller size. */
  lemma AcceptanceDownwardClosed(f: FileInfo, smaller: nat)
    requires Validate(Some(f)).Selected? && smaller <= f.size
    ensures Validate(Some(f.(size := smaller))) == Selected(f.(size := smaller))
  {
  }

  /** The first entry of an event's file list, if any (`files[0]`, which is
      `undefined` for an empty list). */
  function FirstFile(files: seq<FileInfo>): Option<FileInfo>
  {
    if |files| > 0 then Some(files[0]) else None
  }

  // ---------------------------------------------------------------------------
  // Upload responses

  /** The outcome of the POST, as an input: a reply with `success: true` and
      its `data`, a reply with `success: false`, or a thrown error whose
      response body may carry an `error` field. */
  datatype Response<D> = Success(data: D) | LogicalFailure | Thrown(serverError: Option<string>)

  /** The message a resolved upload leaves. A thrown error shows the server's
      message unless it is missing or empty (JavaScript's `||` treats `""` as
      absent), in which case it shows the generic network message. */
  function ResolutionError<D>(response: Response<D>): (e: string)
    ensures e == "" <==> response.Success?
    ensures response.LogicalFailure? ==> e == ParsingFailedMessage
    ensures response.Thrown? && response.serverError.Some? && response.serverError.value != ""
            ==> e == response.serverError.value
    ensures response.Thrown? && (response.serverError.None? || response.serverError.value == "")
            ==> e == NetworkErrorMessage
  {
    match response
    case Success(_) => ""
    case LogicalFailure => ParsingFailedMessage
    case Thrown(server) =>
      if server.Some? && server.value != "" then server.value else NetworkErrorMessage
  }

  /** The store after a successful upload: the three keys written in the
      order the component writes them. */
  function StoredAfterSuccess(items: map<string, string>, serialized: string, count: int, fileName: string): (m: map<string, string>)
    ensures m.Keys == items.Keys + {ParsedDataKey, AnalyzedCountKey, LastUploadedFileNameKey}
    ensures m[ParsedDataKey] == serialized
    ensures m[AnalyzedCountKey] == IntToString(count)
    ensures ParseInt(m[AnalyzedCountKey]) == Some(count)
    ensures m[LastUploadedFileNameKey] == fileName
    ensures forall k :: k in items && k !in {ParsedDataKey, AnalyzedCountKey, LastUploadedFileNameKey} ==> m[k] == items[k]
  {
    IntRoundTrip(count);
    items[ParsedDataKey := serialized][AnalyzedCountKey := IntToString(count)][LastUploadedFileNameKey := fileName]
  }

  /** If the stored count mirrored the parent's count before a successful
      upload, reading it back afterwards gives one more. */
  lemma StoredCountAdvancesByOne(items: map<string, string>, serialized: string, prev: int, fileName: string)
    requires AnalyzedCountKey in items && items[AnalyzedCountKey] == IntToString(prev)
    ensures ParseInt(items[AnalyzedCountKey]) == Some(prev)
    ensures ParseInt(StoredAfterSuccess(items, serialized, prev + 1, fileName)[AnalyzedCountKey]) == Some(prev + 1)
  {
    IntRoundTrip(prev);
  }

  // ---------------------------------------------------------------------------
  // Collaborators: the browser's local storage and the parent component

  /** The browser's persisted key-value store, owned here by one widget. */
  class LocalStorage {
    var items: map<string, string>

    constructor (initial: map<string, string>)
      ensures items == initial
    {
      items := initial;
    }

    method SetItem(key: string, value: string)
      modifies this
      ensures items == old(items)[key := value]
    {
      items := items[key := value];
    }
  }

  /** The state the parent component hands its setters for. */
  class Parent<D> {
    var parsedData: Option<D>
    var analyzedCount: int
    var lastFileName: Option<string>

    constructor (count: int)
      ensures parsedData == None && analyzedCount == count && lastFileName == None
    {
      parsedData := None;
      analyzedCount := count;
      lastFileName := None;
    }

    method SetParsedData(d: D)
      modifies this
      ensures parsedData == Some(d)
      ensures analyzedCount == old(analyzedCount) && lastFileName == old(lastFileName)
    {
      parsedData := Some(d);
    }

    method SetAnalyzedCount(n: int)
      modifies this
      ensures analyzedCount == n
      ensures parsedData == old(parsedData) && lastFileName == old(lastFileName)
    {
      analyzedCount := n;
    }

    method SetLastFileName(name: string)
      modifies this
      ensures lastFileName == Some(name)
      ensures parsedData == old(parsedData) && analyzedCount == old(analyzedCount)
    {
      lastFileName := Some(name);
    }
  }

  // ---------------------------------------------------------------------------
  // The widget

  class Widget<D> {
    var file: Option<FileInfo>
    var error: string
    var loading: bool
    var isDragging: bool

    const store: LocalStorage
    const parent: Parent<D>
    /** `JSON.stringify`, left uninterpreted. */
    const stringify: D -> string
    /** Whether the parent passed the optional `setLastFileName` callback. */
    const notifyLastFileName: bool

    /** The selection is only ever a file that passed validation. */
    ghost predicate Valid()
      reads this
    {
      file.Some? ==> Acceptable(file.value)
    }

    constructor (store: LocalStorage, parent: Parent<D>, stringify: D -> string, notifyLastFileName: bool)
      ensures Valid()
      ensures file == None && error == "" && !loading && !isDragging
      ensures this.store == store && this.parent == parent
      ensures this.stringify == stringify && this.notifyLastFileName == notifyLastFileName
    {
      file := None;
      error := "";
      loading := false;
      isDragging := false;
      this.store := store;
      this.parent := parent;
      this.stringify := stringify;
      this.notifyLastFileName := notifyLastFileName;
    }

    /** Validates a candidate and records either the file or the error. */
    method HandleFile(candidate: Option<FileInfo>)
      requires Valid()
      modifies this
      ensures Valid()
      ensures Validate(candidate).Selected? ==> file == candidate && error == ""
      ensures Validate(candidate).Rejected? ==> file == None && error == Validate(candidate).message
      ensures loading == old(loading) && isDragging == old(isDragging)
    {
      if candidate.None? {
        file := None;
        error := NoFileMessage;
        return;
      }
      if candidate.value.mimeType !in ValidTypes {
        file := None;
        error := InvalidTypeMessage;
        return;
      }
      if candidate.value.size > MaxFileSize {
        file := None;
        error := TooLargeMessage;
        return;
      }
      file := candidate;
      error := "";
    }

    /** The file input's change event: validates its first file. */
    method HandleFileChange(files: seq<FileInfo>)
      requires Valid()
      modifies this
      ensures Valid()
      ensures Validate(FirstFile(files)).Selected? ==> file == FirstFile(files) && error == ""
      ensures Validate(FirstFile(files)).Rejected? ==> file == None && error == Validate(FirstFile(files)).message
      ensures loading == old(loading) && isDragging == old(isDragging)
    {
      HandleFile(FirstFile(files));
    }

    method HandleDragOver()
      modifies this
      ensures isDragging
      ensures file == old(file) && error == old(error) && loading == old(loading)
    {
      isDragging := true;
    }

    method HandleDragLeave()
      modifies this
      ensures !isDragging
      ensures file == old(file) && error == old(error) && loading == old(loading)
    {
      isDragging := false;
    }

    /** A drop clears the highlight and then treats the first dropped file
        exactly as the file input's change event treats its first file. */
    method HandleDrop(files: seq<FileInfo>)
      requires Valid()
      modifies this
      ensures Valid()
      ensures !isDragging
      ensures Validate(FirstFile(files)).Selected? ==> file == FirstFile(files) && error == ""
      ensures Validate(FirstFile(files)).Rejected? ==> file == None && error == Validate(FirstFile(files)).message
      ensures loading == old(loading)
    {
      isDragging := false;
      HandleFile(FirstFile(files));
    }

    /** The synchronous part of the upload handler, up to the request.
        Returns the file that is sent, or `None` when no request is made. */
    method BeginUpload() returns (sent: Option<FileInfo>)
      requires Valid() && !loading
      modifies this
      ensures Valid()
      ensures sent == old(file) && file == old(file) && isDragging == old(isDragging)
      ensures sent.Some? ==> Acceptable(sent.value)
      ensures old(file).None? ==> error == NoFileForUploadMessage && !loading
      ensures old(file).Some? ==> error == "" && loading
    {
      if file.None? {
        error := NoFileForUploadMessage;
        return None;
      }
      loading := true;
      error := "";
      sent := file;
    }

    /** The part of the upload handler after the request resolves. `sent` is
        the file captured when the upload started; the selection may have
        changed since. */
    method ResolveUpload(sent: FileInfo, response: Response<D>)
      requires Valid() && loading
      modifies this, store, parent
      ensures Valid()
      ensures !loading && error == ResolutionError(response)
      ensures file == old(file) && isDragging == old(isDragging)
      ensures response.Success? ==>
        && parent.parsedData == Some(response.data)
        && parent.analyzedCount == old(parent.analyzedCount) + 1
        && parent.lastFileName == (if notifyLastFileName then Some(sent.name) else old(parent.lastFileName))
        && store.items == StoredAfterSuccess(old(store.items), stringify(response.data), old(parent.analyzedCount) + 1, sent.name)
      ensures !response.Success? ==>
        && store.items == old(store.items)
        && parent.parsedData == old(parent.parsedData)
        && parent.analyzedCount == old(parent.analyzedCount)
        && parent.lastFileName == old(parent.lastFileName)
    {
      match response {
      case Success(data) =>
        parent.SetParsedData(data);
        store.SetItem(ParsedDataKey, stringify(data));
        var updated := parent.analyzedCount + 1;
        store.SetItem(AnalyzedCountKey, IntToString(updated));
        parent.SetAnalyzedCount(updated);
        store.SetItem(LastUploadedFileNameKey, sent.name);
        if notifyLastFileName {
          parent.SetLastFileName(sent.name);
        }
        error := "";
      case LogicalFailure =>
        error := ParsingFailedMessage;
      case Thrown(server) =>
        error := if server.Some? && server.value != "" then server.value else NetworkErrorMessage;
      }
      loading := false;
    }

    /** The whole upload handler with the response given: start, and resolve
        if a request was made. Returns the file that was sent, if any. */
    method HandleUpload(response: Response<D>) returns (sent: Option<FileInfo>)
      requires Valid() && !loading
      modifies this, store, parent
      ensures Valid()
      ensures !loading
      ensures sent == old(file) && file == old(file) && isDragging == old(isDragging)
      ensures sent.Some? ==> Acceptable(sent.value)
      ensures old(file).None? ==>
        && error == NoFileForUploadMessage
        && store.items == old(store.items)
        && parent.parsedData == old(parent.parsedData)
        && parent.analyzedCount == old(parent.analyzedCount)
        && parent.lastFileName == old(parent.lastFileName)
      ensures old(file).Some? ==> error == ResolutionError(response)
      ensures old(file).Some? && response.Success? ==>
        && parent.parsedData == Some(response.data)
        && parent.analyzedCount == old(parent.analyzedCount) + 1
        && parent.lastFileName == (if notifyLastFileName then Some(old(file).value.name) else old(parent.lastFileName))
        && store.items == StoredAfterSuccess(old(store.items), stringify(response.data), old(parent.analyzedCount) + 1, old(file).value.name)
      ensures old(file).Some? && !response.Success? ==>
        && store.items == old(store.items)
        && parent.parsedData == old(parent.parsedData)
        && parent.analyzedCount == old(parent.analyzedCount)
        && parent.lastFileName == old(parent.lastFileName)
    {
      sent := BeginUpload();
      if sent.Some? {
        ResolveUpload(sent.value, response);
      }
    }
  }

  /** A client of the specifications above: pick a PDF of exactly 2 MiB,
      upload it, and get a count of one, read back from the store. */
  method ExampleUploadAtSizeBound() {
    var store := new LocalStorage(map[]);
    var parent := new Parent<string>(0);
    var widget := new Widget(store, parent, (d: string) => d, true);
    widget.HandleFileChange([FileInfo("cv.pdf", PdfType, 2 * 1024 * 1024)]);
    assert widget.file.Some? && widget.error == "";
    var sent := widget.HandleUpload(Success("{\"x\":1}"));
    assert sent == Some(FileInfo("cv.pdf", PdfType, 2 * 1024 * 1024));
    assert !widget.loading && widget.error == "";
    assert ParseInt(store.items[AnalyzedCountKey]) == Some(1);
    assert store.items[ParsedDataKey] == "{\"x\":1}";
    assert parent.lastFileName == Some("cv.pdf");

    widget.HandleDrop([FileInfo("cv.png", "image/png", 3 * 1024 * 1024)]);
    assert widget.file == None && widget.error == InvalidTypeMessage;
    sent := widget.HandleUpload(LogicalFailure);
    assert sent == None && widget.error == NoFileForUploadMessage;
    assert parent.analyzedCount == 1;
  }
}
