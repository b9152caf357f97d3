/** NUL-terminated byte strings. */
module CStrings {
  /** A buffer that holds a C string: some byte is NUL. */
  predicate Terminated(buf: seq<bv8>) {
    0 in buf
  }

  /** strlen: the position of the first NUL. */
  function Strlen(buf: seq<bv8>): (n: nat)
    requires Terminated(buf)
    ensures n < |buf| && buf[n] == 0
    ensures forall i :: 0 <= i < n ==> buf[i] != 0
  {
    if buf[0] == 0 then 0 else 1 + Strlen(buf[1..])
  }

  /** The bytes before the first NUL. */
  function CString(buf: seq<bv8>): (s: seq<bv8>)
    requires Terminated(buf)
    ensures |s| == Strlen(buf) && 0 !in s
  {
    buf[..Strlen(buf)]
  }
}
