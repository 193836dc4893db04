/** Vocabulary shared by the connector and the two relay pumps. */
module Io {

  /** One octet on the wire or on standard output. */
  newtype byte = b: int | 0 <= b < 256

  /** The kinds of `std::io::Error` the client tells apart. Only `InvalidInput`
      (no resolved address) and `WouldBlock` (a non-blocking read with nothing
      to read) are ever tested by the client; the rest stand for any other
      cause a foreign call may report. */
  datatype ErrorKind = InvalidInput | WouldBlock | TimedOut | ConnectionRefused | BrokenPipe | Other

  datatype Option<+T> = None | Some(value: T)

  datatype Result<+T, +E> = Ok(value: T) | Err(error: E)

  /** The bytes of several writes, back to back, with nothing in between. */
  function Concat(chunks: seq<seq<byte>>): seq<byte>
  {
    if chunks == [] then [] else chunks[0] + Concat(chunks[1..])
  }

  /** Position of the first item that `ends` holds of, or `|s|` if none. */
  function FirstIndex<T>(s: seq<T>, ends: T -> bool): (k: nat)
    ensures k <= |s|
    ensures k < |s| ==> ends(s[k])
    ensures forall i :: 0 <= i < k ==> !ends(s[i])
    decreases |s|
  {
    if s == [] then 0
    else if ends(s[0]) then 0
    else
      var k' := FirstIndex(s[1..], ends);
      assert forall i :: 1 <= i < k' + 1 ==> s[i] == s[1..][i - 1];
      k' + 1
  }

  function Min(x: nat, y: nat): nat
  {
    if x <= y then x else y
  }
}
