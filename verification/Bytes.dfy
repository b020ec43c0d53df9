/** Writing into a byte buffer of fixed size. */
module Bytes {
  import opened Bits

  /** `buffer` with `data` written at `at`. */
  function Splice(buffer: seq<byte>, at: nat, data: seq<byte>): (r: seq<byte>)
    requires at + |data| <= |buffer|
    ensures |r| == |buffer|
  {
    buffer[..at] + data + buffer[at + |data|..]
  }

  /** Byte by byte: the data where it was written, and everywhere else what was there. */
  lemma SpliceAt(buffer: seq<byte>, at: nat, data: seq<byte>, k: nat)
    requires at + |data| <= |buffer| && k < |buffer|
    ensures Splice(buffer, at, data)[k] == if at <= k < at + |data| then data[k - at] else buffer[k]
  {
  }
}
