/** The file.read tool: reads at most max_bytes bytes from the start of a
    file, optionally slices them with PHP's substr, and reports the full
    file size and whether the cap cut the file short. The file system is a
    parameter: what `is_file`, `fopen` and the file's bytes would say. */
module FileRead {
  import opened Common

  newtype Byte = b: int | 0 <= b < 256

  /** What the file system says about the requested path. */
  datatype FileInfo = FileInfo(isFile: bool, opens: bool, bytes: seq<Byte>)

  datatype ReadRequest = ReadRequest(path: string, maxBytes: int, start: int, end: Option<int>)

  datatype ReadResponse = ReadResponse(path: string, size: nat, content: seq<Byte>, truncated: bool)

  /** A tool answer: JSON, Response::error, or an exception that escapes
      handle. */
  datatype Outcome = Json(response: ReadResponse) | Error(message: string) | Thrown(message: string)

  // ---------------------------------------------------------------------------
  // substr (PHP 8)

  /** The byte range substr($s, $start, $length) keeps of a string of
      length n: a start past the end gives nothing; a negative start counts
      from the end (clamped at 0); a missing length runs to the end; a
      negative length stops that many bytes before the end, or gives
      nothing if that is not after the start; a length that runs past the
      end is clamped. */
  function SubstrRange(n: nat, start: int, length: Option<int>): (r: (nat, nat))
    ensures r.0 <= r.1 <= n
    ensures 0 <= start <= n && length.None? ==> r == (start, n)
    ensures 0 <= start && length.Some? && 0 <= length.value && start + length.value <= n ==>
      r == (start, start + length.value)
  {
    if start > n then (n, n)
    else
      var lo: nat := if start >= 0 then start else if -start > n then 0 else n + start;
      match length
      case None => (lo, n)
      case Some(l) =>
        if l < 0 then (if n - lo < -l then (lo, lo) else (lo, n + l))
        else if l > n - lo then (lo, n)
        else (lo, lo + l)
  }

  function Substr(s: seq<Byte>, start: int, length: Option<int>): seq<Byte>
  {
    var r := SubstrRange(|s|, start, length);
    s[r.0..r.1]
  }

  // ---------------------------------------------------------------------------
  // handle

  const NotFoundPrefix := "File not found: "
  const OpenFailedPrefix := "Unable to open file: "
  /** PHP 8's fread refuses a length below 1 with this ValueError. */
  const FreadLengthMessage := "fread(): Argument #2 ($length) must be greater than 0"

  /** The slice step: only when an end is given or the start is positive,
      with substr's length end - start. */
  function Slice(data: seq<Byte>, start: int, end: Option<int>): seq<Byte>
  {
    if end.Some? || start > 0 then
      Substr(data, start, if end.Some? then Some(end.value - start) else None)
    else data
  }

  /** handle as written: min(size, max_bytes) goes straight to fread, which
      throws for a length of 0 or less, so an empty file (or a cap of 0)
      ends in an exception instead of an answer. */
  function ReadAsWritten(req: ReadRequest, file: FileInfo): Outcome
  {
    if !file.isFile then Error(NotFoundPrefix + req.path)
    else if !file.opens then Error(OpenFailedPrefix + req.path)
    else
      var size := |file.bytes|;
      var toRead := Min(size, req.maxBytes);
      if toRead <= 0 then Thrown(FreadLengthMessage)
      else
        var data := file.bytes[..toRead];
        Json(ReadResponse(req.path, size, Slice(data, req.start, req.end), size > req.maxBytes))
  }

  /** An existing, empty file cannot be read as written. */
  lemma EmptyFileThrows(req: ReadRequest)
    ensures ReadAsWritten(req, FileInfo(true, true, [])) == Thrown(FreadLengthMessage)
  {
  }

  /** The bytes read: the first min(size, max_bytes) bytes, none when that
      is not positive. */
  function ReadBytes(bytes: seq<Byte>, maxBytes: int): (data: seq<Byte>)
    ensures data <= bytes
    ensures |data| == Max(0, Min(|bytes|, maxBytes))
  {
    if Min(|bytes|, maxBytes) <= 0 then [] else bytes[..Min(|bytes|, maxBytes)]
  }

  /** handle with the read skipped when there is nothing to read. */
  function Read(req: ReadRequest, file: FileInfo): (r: Outcome)
    ensures !file.isFile ==> r == Error(NotFoundPrefix + req.path)
    ensures file.isFile && !file.opens ==> r == Error(OpenFailedPrefix + req.path)
    ensures file.isFile && file.opens ==> r.Json?
    ensures r.Json? ==>
      var data := ReadBytes(file.bytes, req.maxBytes);
      && r.response.path == req.path
      && r.response.size == |file.bytes|
      && (r.response.truncated <==> |file.bytes| > req.maxBytes)
      && (exists lo, hi | 0 <= lo <= hi <= |data| :: r.response.content == data[lo..hi])
      && (req.start <= 0 && req.end.None? ==> r.response.content == data)
      && (0 <= req.start <= |data| && req.end.None? ==> r.response.content == data[req.start..])
      && (req.end.Some? && 0 <= req.start <= req.end.value <= |data| ==>
            r.response.content == data[req.start..req.end.value])
  {
    if !file.isFile then Error(NotFoundPrefix + req.path)
    else if !file.opens then Error(OpenFailedPrefix + req.path)
    else
      var size := |file.bytes|;
      var data := ReadBytes(file.bytes, req.maxBytes);
      var content := Slice(data, req.start, req.end);
      var range := SubstrRange(|data|, req.start, if req.end.Some? then Some(req.end.value - req.start) else None);
      assert content == data[0..|data|] || content == data[range.0..range.1];
      Json(ReadResponse(req.path, size, content, size > req.maxBytes))
  }

  /** Wherever the code as written answers, the corrected handle gives the
      same answer; they differ only where the code as written throws. */
  lemma ReadAgreesWhenAnswered(req: ReadRequest, file: FileInfo)
    requires !ReadAsWritten(req, file).Thrown?
    ensures Read(req, file) == ReadAsWritten(req, file)
  {
  }

  /** The two differ exactly on the readable files with nothing to read. */
  lemma ReadAsWrittenThrowsOnlyOnEmptyRead(req: ReadRequest, file: FileInfo)
    ensures ReadAsWritten(req, file).Thrown? <==>
      file.isFile && file.opens && Min(|file.bytes|, req.maxBytes) <= 0
  {
  }
}
