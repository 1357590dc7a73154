/** Optional values, and results that are either a value or the exception
    the Java code would have thrown instead. */
module Wrappers {

  datatype Option<+T> = None | Some(value: T)

  datatype Result<+T, +E> = Ok(value: T) | Err(error: E)

  /** The Java exceptions (and the one `Error`) the modelled code can raise
      on its byte-level paths. */
  datatype Fault =
    | BufferOverflow     // ByteBuffer.put past the limit
    | BufferUnderflow    // ByteBuffer.get past the limit
    | NegativeArraySize  // new byte[len] with len < 0
    | IllegalCapacity    // ByteBuffer.allocate with a negative capacity
    | EndOfStream        // DataInputStream.readFully before n bytes arrived
    | OutOfMemory        // String.getBytes of a text over 2^31 - 1 octets
}
