/** Sizes shared by both ends. */
module Parameters {
  type byte = bv8

  /** Bytes in each of the two rings (cbuffer.c:121, sbuffer.c:19). */
  const CAP: int := 64000
  /** Bytes in a full packet. */
  const PKT: int := 1000
  /** Packets a ring has room for. */
  const BLOCKS: int := 64
  /** Bytes the sender may have outstanding (cbuffer.c:307). */
  const WIN: int := 20000
  /** The number that marks the end of an open hole (sbuffer.c:118). */
  const MAXSEQ: int := 2147483647
}
