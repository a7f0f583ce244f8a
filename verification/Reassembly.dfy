/** What the receiver buffer of sbuffer.c does, without its list and ring.

    The state is the next packet number to be served, how many bytes of the block in
    front have already been served, and the packets held. */
module Reassembly {
  import opened Parameters

  datatype Receiver = Receiver(dstart: int, off: nat, store: map<int, seq<byte>>)

  const INITIAL := Receiver(1, 0, map[])

  /** The first number from s on that is not among the keys, or hi. */
  function FirstMissing(keys: set<int>, s: int, hi: int): (e: int)
    requires s <= hi
    ensures s <= e <= hi
    ensures forall k | s <= k < e :: k in keys
    ensures e < hi ==> e !in keys
    decreases hi - s
  {
    if s < hi && s in keys then FirstMissing(keys, s + 1, hi) else s
  }

  ghost predicate FullPackets(store: map<int, seq<byte>>) {
    forall s | s in store :: |store[s]| == PKT
  }

  /** The packets s, s+1, ..., e-1 joined. */
  function Joined(store: map<int, seq<byte>>, s: int, e: int): (bytes: seq<byte>)
    requires s <= e
    requires forall k | s <= k < e :: k in store
    requires FullPackets(store)
    ensures |bytes| == (e - s) * PKT
    decreases e - s
  {
    if s == e then [] else store[s] + Joined(store, s + 1, e)
  }

  /** The end of the block that can be served now. */
  function BlockEnd(r: Receiver): (e: int)
    ensures r.dstart <= e <= r.dstart + BLOCKS
    ensures forall k | r.dstart <= k < e :: k in r.store
  {
    FirstMissing(r.store.Keys, r.dstart, r.dstart + BLOCKS)
  }

  ghost predicate Valid(r: Receiver) {
    && 1 <= r.dstart <= MAXSEQ
    && FullPackets(r.store)
    && (forall s | s in r.store :: r.dstart <= s < r.dstart + BLOCKS && s < MAXSEQ)
    && (r.off > 0 ==> r.off < (BlockEnd(r) - r.dstart) * PKT)
  }

  /** A duplicate is recognised only at the front of a block of held packets. */
  predicate Recognised(r: Receiver, s: int) {
    s in r.store && s - 1 !in r.store
  }

  predicate Acceptable(r: Receiver, s: int) {
    r.dstart <= s < r.dstart + BLOCKS && s !in r.store
  }

  /** addData: the new state and whether the packet is acknowledged. */
  function Insert(r: Receiver, s: int, packet: seq<byte>): (Receiver, bool) {
    if Recognised(r, s) then (r, true)
    else if Acceptable(r, s) then (r.(store := r.store[s := packet]), true)
    else (r, false)
  }

  /** What is left of the front block. */
  function Available(r: Receiver): (bytes: seq<byte>)
    requires Valid(r)
  {
    Joined(r.store, r.dstart, BlockEnd(r))[r.off..]
  }

  function DropBelow(store: map<int, seq<byte>>, e: int): map<int, seq<byte>> {
    map s | s in store && e <= s :: store[s]
  }

  /** requestData: the new state and the bytes served. */
  function Read(r: Receiver, n: nat): (Receiver, seq<byte>)
    requires Valid(r)
  {
    var bytes := Available(r);
    if r.dstart !in r.store then (r, [])
    else if |bytes| <= n then (Receiver(BlockEnd(r), 0, DropBelow(r.store, BlockEnd(r))), bytes)
    else (r.(off := r.off + n), bytes[..n])
  }
}
