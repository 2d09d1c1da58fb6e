/** Digests. A hash is any function to 32 bytes; nothing else is assumed of it. */
module Hashing {
  import opened Bytes

  type Digest = d: seq<byte> | |d| == 32 witness seq(32, _ => 0)

  type Hash = seq<byte> -> Digest
}
