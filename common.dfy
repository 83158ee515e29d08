/** Values shared by every tool: optional values, results carrying an error
    message, the cell values a database hands back, and the "keep at least one"
    output cap the tools' result loops apply. */
module Common {

  datatype Option<T> = None | Some(value: T)

  /** A tool either answers with a value or with Response::error(message). */
  datatype Result<T> = Ok(value: T) | Err(message: string)

  /** A cell of a result row: SQL NULL, text, or an integer reported by the engine. */
  datatype Cell = Null | Text(text: string) | Number(n: int)

  function Min(a: int, b: int): int { if a < b then a else b }

  function Max(a: int, b: int): int { if a < b then b else a }

  /** The rows (or matches) an output loop keeps when it appends first and then
      stops once the count reaches `cap`: an in-order prefix of at most
      max(cap, 1) elements, so one element survives even a cap of zero or less. */
  function Capped<T>(s: seq<T>, cap: int): (r: seq<T>)
    ensures r <= s
    ensures |r| <= Max(cap, 1)
    ensures s != [] ==> r != []
    ensures |s| <= Max(cap, 1) ==> r == s
    ensures 1 <= cap <= |s| ==> |r| == cap
  {
    s[..Min(|s|, Max(cap, 1))]
  }
}
