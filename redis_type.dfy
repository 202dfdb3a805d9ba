/**
 * The five RESP2 value kinds of the server (SimpleString, BulkString,
 * Integer, SimpleError, Array) as one recursive datatype, the C++
 * std::variant RedisValue.
 */
module RedisType {
  import opened Wrappers
  import opened ByteStrings

  datatype RedisValue =
    | SimpleString(text: Bytes)
      /** `None` is the null bulk string, `Some([])` the empty one. */
    | BulkString(bytes: Option<Bytes>)
    | Integer(number: int64)
    | SimpleError(message: Bytes)
    | Array(elements: ArrayData)

  /** The optional element vector of an Array: the null array is not the
      empty array, and an element may itself be any value, arrays included. */
  datatype ArrayData = NullArray | Elements(items: seq<RedisValue>)

  /** `BulkString()`: the default constructor gives the null bulk string. */
  function DefaultBulkString(): (v: RedisValue)
    ensures v.BulkString? && v.bytes.None?
  {
    BulkString(None)
  }

  /** `BulkString(const std::string &)`: a non-null bulk string holding
      exactly the bytes of `s`, also when `s` is empty. */
  function BulkStringOf(s: Bytes): (v: RedisValue)
    ensures v.BulkString? && v.bytes.Some? && v.bytes.value == s
  {
    BulkString(Some(s))
  }

  /** The null array and the empty array are different values. */
  lemma NullArrayIsNotEmpty()
    ensures Array(NullArray) != Array(Elements([]))
  {
  }
}
