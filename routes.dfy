/** The decisions of the file-transfer HTTP handler (FileHandler): which
    request is answered with the offered file, which upload is saved where,
    and which status each request gets. */
module Routes {
  import opened Wrappers
  import opened Sequences
  import opened Numerals
  import opened Bytes
  import opened Multipart

  const GETFILE_PATH: string := "/getfile"
  const UPLOAD_PATH: string := "/upload"
  const DISPOSITION_PREFIX: string := "attachment; filename="
  const UPLOAD_FOLDER: seq<byte> := Ascii("uploads")
  const SLASH: seq<byte> := Ascii("/")
  const EQUALS: seq<byte> := Ascii("=")

  /** The file chosen in the window (`file_to_send`), with the bytes
      reading it yields. */
  datatype OfferedFile = OfferedFile(path: string, contents: seq<byte>)

  /** The answer to a GET: the file with its Content-Disposition, 404, or
      `HeaderUnencodable` where `send_header` raises UnicodeEncodeError
      because the header line is not latin-1; no response is sent then, as
      the headers are only flushed by `end_headers`. */
  datatype GetReply = FileSent(disposition: string, body: seq<byte>) | FileNotFound | HeaderUnencodable

  /** The status line sent, if any. */
  function GetStatus(r: GetReply): Option<int> {
    match r
    case FileSent(_, _) => Some(200)
    case FileNotFound => Some(404)
    case HeaderUnencodable => None
  }

  /** `http.server` encodes every header line as strict latin-1. */
  predicate Latin1(s: string) {
    forall k :: 0 <= k < |s| ==> s[k] as int <= 0xFF
  }

  /** `os.path.basename`: the last component of the path, after its last
      "/"; it holds no "/" and ends the path. */
  function Basename(path: string): (r: string)
    ensures '/' !in r && EndsWith(path, r)
    ensures |r| < |path| ==> path[|path| - |r| - 1] == '/'
  {
    var r := LastPiece(path, "/");
    LastPieceShape(path, "/");
    FindSingle(r, '/');
    EndsWithSingle(path[..|path| - |r|], '/');
    r
  }

  /** do_GET. A path that is the empty string counts as no file offered,
      as an empty `file_to_send` is false in the source's test. */
  function HandleGet(path: string, offered: Option<OfferedFile>): (r: GetReply)
    ensures GetStatus(r) == Some(404) <==> !(path == GETFILE_PATH && offered.Some? && offered.value.path != [])
    ensures GetStatus(r) == Some(200) <==>
      path == GETFILE_PATH && offered.Some? && offered.value.path != [] && Latin1(Basename(offered.value.path))
    ensures r.FileSent? ==> r.body == offered.value.contents
    ensures r.FileSent? ==> r.disposition == DISPOSITION_PREFIX + Basename(offered.value.path)
  {
    if path == GETFILE_PATH && offered.Some? && offered.value.path != [] then
      var name := Basename(offered.value.path);
      var disposition := DISPOSITION_PREFIX + name;
      assert Latin1(DISPOSITION_PREFIX);
      assert forall k :: 0 <= k < |name| ==> disposition[|DISPOSITION_PREFIX| + k] == name[k];
      if Latin1(disposition) then FileSent(disposition, offered.value.contents) else HeaderUnencodable
    else
      FileNotFound
  }

  /** The name announced for a download is the last component of the
      offered path: it holds no "/", the path ends with it, and in the path
      it follows a "/" or nothing. */
  lemma DispositionNamesBasename(offered: OfferedFile)
    requires offered.path != [] && Latin1(Basename(offered.path))
    ensures HandleGet(GETFILE_PATH, Some(offered)).FileSent?
    ensures var r := HandleGet(GETFILE_PATH, Some(offered));
      var name := r.disposition[|DISPOSITION_PREFIX|..];
      '/' !in name && EndsWith(offered.path, name) &&
      (|name| == |offered.path| || offered.path[|offered.path| - |name| - 1] == '/')
  {
    var r := HandleGet(GETFILE_PATH, Some(offered));
    assert r.disposition[|DISPOSITION_PREFIX|..] == Basename(offered.path);
  }

  /** A path whose last component holds a character beyond U+00FF gets no
      response at all. */
  lemma UnencodableNameUnanswered(offered: OfferedFile, k: nat)
    requires k < |Basename(offered.path)| && Basename(offered.path)[k] as int > 0xFF
    ensures HandleGet(GETFILE_PATH, Some(offered)) == HeaderUnencodable
  {
  }

  /** The answer to a POST. `Aborted` stands for an exception escaping
      do_POST: no status line is sent and the connection is closed. */
  datatype PostReply = Saved(target: seq<byte>, payload: seq<byte>) | BadRequest | PostNotFound | Aborted

  /** The status line sent, if any. */
  function PostStatus(r: PostReply): Option<int> {
    match r
    case Saved(_, _) => Some(200)
    case BadRequest => Some(400)
    case PostNotFound => Some(404)
    case Aborted => None
  }

  /** `sys.maxsize` on a 64-bit build: the largest length `read` accepts. */
  const MAX_SIZE: int := 0x7FFF_FFFF_FFFF_FFFF

  /** `rfile.read(length)` on the buffered reader of the connection. It
      raises (None) for a length below -1 (ValueError) or above
      `sys.maxsize` (OverflowError); -1 reads what the client sends up to
      the end; otherwise at most `length` bytes. */
  function ReadBody(length: int, stream: seq<byte>): (r: Option<seq<byte>>)
    ensures r.None? <==> length < -1 || length > MAX_SIZE
    ensures r.Some? ==> StartsWith(stream, r.value)
    ensures r.Some? && length >= 0 ==> |r.value| == if length <= |stream| then length else |stream|
    ensures length == -1 ==> r == Some(stream)
  {
    if length < -1 || length > MAX_SIZE then None
    else if length == -1 || length > |stream| then Some(stream)
    else Some(stream[..length])
  }

  /** `os.path.join("uploads", filename)` with POSIX rules: an absolute
      name replaces the folder. The target ends with the name, and starts
      with `uploads/` exactly when the name is not absolute; its length
      leaves room for nothing else. */
  function UploadTarget(filename: seq<byte>): (r: seq<byte>)
    ensures EndsWith(r, filename)
    ensures StartsWith(filename, SLASH) <==> !StartsWith(r, UPLOAD_FOLDER + SLASH)
    ensures |r| == |filename| + if StartsWith(filename, SLASH) then 0 else |UPLOAD_FOLDER + SLASH|
  {
    var prefix := UPLOAD_FOLDER + SLASH;
    assert prefix[0] != SLASH[0];
    if StartsWith(filename, SLASH) then
      assert |filename| >= |prefix| ==> filename[..|prefix|][0] == filename[0];
      filename
    else
      var r := prefix + filename;
      assert r[..|prefix|] == prefix;
      assert r[|r| - |filename|..] == filename;
      r
  }

  /** do_POST. `contentLength` and `contentType` are the header values when
      present; the Content-Type is taken as the bytes `.encode()` gives. */
  function HandlePost(path: string, contentLength: Option<string>, contentType: Option<seq<byte>>,
                      stream: seq<byte>): (r: PostReply)
    ensures path != UPLOAD_PATH <==> PostStatus(r) == Some(404)
    ensures r.Saved? ==>
      contentLength.Some? && ParseInt(contentLength.value).Some? && contentType.Some? &&
      ReadBody(ParseInt(contentLength.value).value, stream).Some?
    ensures path == UPLOAD_PATH && (contentLength.None? || ParseInt(contentLength.value).None?) ==> r == Aborted
    ensures path == UPLOAD_PATH && contentType.None? ==> r == Aborted
  {
    if path != UPLOAD_PATH then PostNotFound
    else if contentLength.None? || ParseInt(contentLength.value).None? || contentType.None? then Aborted
    else
      var boundary := LastPiece(contentType.value, EQUALS);
      match ReadBody(ParseInt(contentLength.value).value, stream)
      case None => Aborted
      case Some(data) =>
        match Extract(boundary, data)
        case NoFilePart => BadRequest
        case Malformed => Aborted
        case Extracted(u) => Saved(UploadTarget(u.filename), u.payload)
  }

  /** 400 is answered exactly when the headers are usable, the body can be
      read and no part of it mentions `filename=`; nothing is saved then. A
      Content-Length below -1 or above `sys.maxsize` raises instead. */
  lemma BadRequestWhenNoFile(contentLength: string, contentType: seq<byte>, stream: seq<byte>)
    requires ParseInt(contentLength).Some?
    ensures var data := ReadBody(ParseInt(contentLength).value, stream);
      var reply := HandlePost(UPLOAD_PATH, Some(contentLength), Some(contentType), stream);
      (PostStatus(reply) == Some(400) <==>
        data.Some? && NoneNamesFile(Split(data.value, Delimiter(LastPiece(contentType, EQUALS))))) &&
      (data.None? ==> reply == Aborted)
  {
  }

  /** The Content-Type a form-submitting client sends. */
  function FormContentType(boundary: seq<byte>): seq<byte> {
    Ascii("multipart/form-data; boundary=") + boundary
  }

  /** The boundary is read back from the Content-Type when it holds no "=". */
  lemma BoundaryOfFormContentType(boundary: seq<byte>)
    requires EQUALS[0] !in boundary
    ensures LastPiece(FormContentType(boundary), EQUALS) == boundary
  {
    var lead := Ascii("multipart/form-data; boundary");
    assert FormContentType(boundary) == lead + [EQUALS[0]] + boundary;
    assert EQUALS == [EQUALS[0]];
    LastPieceAfter(lead, EQUALS[0], boundary);
  }

  /** End to end: an upload of one file, with its exact Content-Length, is
      saved under its name with its bytes, whatever the client sends after
      the body. The part header may carry anything (a Content-Type line,
      say) as long as its first filename parameter is `name`, and the
      payload must not end in `-`, CR or LF. */
  lemma UploadSaved(boundary: seq<byte>, header: seq<byte>, name: seq<byte>, payload: seq<byte>, extra: seq<byte>)
    requires boundary != [] && boundary[0] != 13 && EQUALS[0] !in boundary
    requires EndsAtFirst(header, HEADER_END)
    requires FilenameOf(header) == Some(name) && ValidUtf8(name)
    requires payload == [] || payload[|payload| - 1] !in TRAILER
    requires EndsAtFirst(FilePart(header, payload), Delimiter(boundary))
    requires |FormBody(boundary, FilePart(header, payload))| <= MAX_SIZE
    ensures var body := FormBody(boundary, FilePart(header, payload));
      HandlePost(UPLOAD_PATH, Some(FormatInt(|body|)), Some(FormContentType(boundary)), body + extra) ==
        Saved(UploadTarget(name), payload)
  {
    var body := FormBody(boundary, FilePart(header, payload));
    ParseFormat(|body|);
    BoundaryOfFormContentType(boundary);
    assert ReadBody(|body|, body + extra) == Some(body);
    ExtractFormBody(boundary, header, name, payload);
  }

  /** The same for the header a browser sends, `filename="<name>"` followed
      by anything without a blank line, with an ASCII name: such a name
      always decodes. */
  lemma UploadSavedAscii(boundary: seq<byte>, head: seq<byte>, name: seq<byte>, tail: seq<byte>,
                         payload: seq<byte>, extra: seq<byte>)
    requires boundary != [] && boundary[0] != 13 && EQUALS[0] !in boundary
    requires EndsAtFirst(head, FILENAME_OPEN)
    requires forall k :: 0 <= k < |name| ==> IsAscii(name[k])
    requires QUOTE[0] !in name && !EndsWith(name, FILENAME_FIELD)
    requires EndsAtFirst(FileHeader(head, name) + tail, HEADER_END)
    requires payload == [] || payload[|payload| - 1] !in TRAILER
    requires EndsAtFirst(FilePart(FileHeader(head, name) + tail, payload), Delimiter(boundary))
    requires |FormBody(boundary, FilePart(FileHeader(head, name) + tail, payload))| <= MAX_SIZE
    ensures var body := FormBody(boundary, FilePart(FileHeader(head, name) + tail, payload));
      HandlePost(UPLOAD_PATH, Some(FormatInt(|body|)), Some(FormContentType(boundary)), body + extra) ==
        Saved(UploadTarget(name), payload)
  {
    AsciiIsUtf8(name);
    FilenameOfFileHeader(head, name, tail);
    UploadSaved(boundary, FileHeader(head, name) + tail, name, payload, extra);
  }
}
