/** Values shared by every component: optional values, results and the
    Firestore field values stored in documents, claims and filters. */
module Values {

  datatype Option<+T> = None | Some(value: T)

  datatype Result<+T, +E> = Ok(value: T) | Err(error: E)

  /** A stored value. Doubles are modelled as reals. */
  datatype FieldValue =
    | Null
    | Boolean(b: bool)
    | Integer(i: int)
    | Double(d: real)
    | Timestamp(seconds: int, nanos: int)
    | String(s: string)
    | Bytes(bytes: seq<bv8>)
    | Reference(path: string)
    | Array(items: seq<FieldValue>)
    | Map(entries: map<string, FieldValue>)

  type Fields = map<string, FieldValue>

  /** The storage errors the modelled operations return. */
  datatype CoreError =
    | DocumentNotFound
    | AlreadyExists
    | OccConflict
    | TransactionNotFound
    | TransactionAborted
    | InvalidArgument

  const I64_MODULUS: int := 0x1_0000_0000_0000_0000
  const I64_HALF: int := 0x8000_0000_0000_0000

  /** The value of a 64-bit two's complement register holding `x`. */
  function WrapI64(x: int): (r: int)
    ensures -I64_HALF <= r < I64_HALF
    ensures -I64_HALF <= x < I64_HALF ==> r == x
  {
    (x + I64_HALF) % I64_MODULUS - I64_HALF
  }

  /** The parts of `parts` separated by '/'. */
  function JoinSlash(parts: seq<string>): string {
    if |parts| == 0 then ""
    else if |parts| == 1 then parts[0]
    else parts[0] + "/" + JoinSlash(parts[1..])
  }
}
