/** Types shared by the backend and the web client models. */
module Common {

  /** An optional value: Go's nil pointer / absent JSON key, or JavaScript's undefined. */
  datatype Option<T> = None | Some(value: T)

  /** A point in time, in nanoseconds; only compared and copied, never computed with. */
  type Timestamp = int

  /** A dynamically typed value as found in a Firestore document (`map[string]interface{}`).
      `StrList` is a Go `[]string` the service puts into a document it writes; `Array` is an
      array as a document read hands it back (`[]interface{}`, whatever was written). */
  datatype Value =
    | Str(s: string)
    | Time(t: Timestamp)
    | StrList(items: seq<string>)
    | Array(elems: seq<Value>)
    | Other

  /** The fields of one Firestore document. */
  type Document = map<string, Value>

  /** A user as the web client receives it from the users endpoints: the two fields it reads. */
  datatype UserRef = UserRef(id: string, username: string)

  /** The HTTP status codes the handlers answer with. */
  datatype HttpStatus = OK | Created | BadRequest | Forbidden | NotFound | InternalServerError
  {
    function Code(): (c: int)
      ensures 200 <= c < 600
    {
      match this
      case OK => 200
      case Created => 201
      case BadRequest => 400
      case Forbidden => 403
      case NotFound => 404
      case InternalServerError => 500
    }
  }

  /** Number of bytes of the UTF-8 encoding of one character. */
  function RuneLen(c: char): (n: nat)
    ensures 1 <= n <= 4
    ensures n == 1 <==> c as int < 0x80
  {
    if c as int < 0x80 then 1
    else if c as int < 0x800 then 2
    else if c as int < 0x10000 then 3
    else 4
  }

  /** Go's `len(s)` on a string: the length of its UTF-8 encoding in bytes. */
  function ByteLen(s: string): (n: nat)
    ensures |s| <= n <= 4 * |s|
  {
    if s == [] then 0 else ByteLen(s[..|s| - 1]) + RuneLen(s[|s| - 1])
  }

  /** A string of ASCII characters has as many bytes as characters. */
  lemma {:induction false} ByteLenAscii(s: string)
    requires forall k :: 0 <= k < |s| ==> s[k] as int < 0x80
    ensures ByteLen(s) == |s|
  {
    if s != [] {
      ByteLenAscii(s[..|s| - 1]);
    }
  }
}
