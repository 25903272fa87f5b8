/** The byte streams the splitter reads from, and the failures that end a
    command early. A stream over a file is its contents and a read
    position; writing to an output stream appends to a sequence. */
module Streams {
  import opened Interleave

  datatype Result<T, E> = Success(value: T) | Failure(error: E)

  /** Exceptions that escape a command. */
  datatype Fault =
    | NegativeArraySize      // an array of handles with a negative length
    | IndexOutOfBounds       // a write to a handle the array does not have
    | FileNotFound(name: string)

  /** One InputStream.read() on a stream over data standing at pos: the
      next byte and the advanced position, or -1 and the same position
      once the data is used up. */
  function Read(data: seq<byte>, pos: nat): (r: (int, nat))
    requires pos <= |data|
    ensures -1 <= r.0 < 256
    ensures r.0 < 0 <==> pos == |data|
    ensures r.0 >= 0 ==> r.0 == data[pos] && r.1 == pos + 1
    ensures r.0 < 0 ==> r.1 == pos
  {
    if pos < |data| then (data[pos], pos + 1) else (-1, pos)
  }
}
