/** memset from stdlib.cpp, on a whole buffer of bytes. */
module Cstring {
  method Memset(buffer: array<bv8>, value: bv8)
    modifies buffer
    ensures forall i :: 0 <= i < buffer.Length ==> buffer[i] == value
  {
    var num, at := buffer.Length, 0;
    while num > 0
      invariant at + num == buffer.Length && num >= 0
      invariant forall i :: 0 <= i < at ==> buffer[i] == value
    {
      buffer[at] := value;
      num, at := num - 1, at + 1;
    }
  }
}
