/** Values exchanged by the socket wrapper: the JSON-like message tree with
    raw byte arrays as an extra leaf kind, Java's 32-bit int, and the
    failures the wrapper's operations can raise. */
module Json {

  newtype Byte = b: int | 0 <= b < 0x100
  type Bytes = seq<Byte>

  /** Java's `int`. */
  type Int32 = x: int | -0x8000_0000 <= x < 0x8000_0000

  /** A message tree. `Obj` keeps its keys in the order the object's key
      iterator yields them; `Blob` is a `byte[]` value held in the tree. */
  datatype J =
    | Obj(members: seq<(string, J)>)
    | Arr(items: seq<J>)
    | Str(s: string)
    | Num(n: real)
    | Bool(b: bool)
    | Null
    | Blob(bytes: Bytes)
  {
    predicate IsContainer() { Obj? || Arr? }
  }

  /** The exceptions the wrapper lets escape. */
  datatype Fault =
    | JsonSyntax        // the first frame is not a JSON object
    | NumberFormat      // a string holding '@' is not '@' followed by an int
    | BufferUnderflow   // a tag frame shorter than four bytes
    | IndexOutOfBounds  // a tag frame with no payload frame after it

  datatype Option<T> = None | Some(value: T)

  datatype Result<T> = Ok(value: T) | Err(fault: Fault)
}
