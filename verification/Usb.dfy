/**
 USB endpoints as the bootloaders use them: a bank that holds the current packet,
 and the packets behind or ahead of it.
 */
module Usb {
  import opened Basics
  import opened Bits

  /** An OUT endpoint: the rest of the current packet, and the packets still to come. */
  datatype OutPipe = OutPipe(bank: seq<byte>, queue: seq<seq<byte>>)

  function Stream(p: OutPipe): seq<byte> {
    p.bank + Flatten(p.queue)
  }

  /** Every packet is non-empty and of even size, so that no word straddles packets. */
  predicate EvenPackets(p: OutPipe) {
    && |p.bank| % 2 == 0
    && forall k :: k in p.queue ==> 0 < |k| && |k| % 2 == 0
  }

  /** Acknowledge the current packet and wait for the next; `None` if there is none. */
  function NextPacket(p: OutPipe): Option<OutPipe> {
    if p.queue == [] then None else Some(OutPipe(p.queue[0], p.queue[1..]))
  }

  /** Wait for the next packet only if the current one is used up. */
  function Refill(p: OutPipe): Option<OutPipe> {
    if p.bank != [] then Some(p) else NextPacket(p)
  }

  /** Endpoint_Read_8; an empty bank reads as zero. */
  function Peek8(p: OutPipe): byte {
    if p.bank == [] then 0 else p.bank[0]
  }

  function Drop8(p: OutPipe): OutPipe {
    if p.bank == [] then p else p.(bank := p.bank[1..])
  }

  /** Endpoint_Read_16_LE. */
  function Peek16(p: OutPipe): nat {
    Word(Peek8(p), Peek8(Drop8(p)))
  }

  function Drop16(p: OutPipe): OutPipe {
    Drop8(Drop8(p))
  }

  /** Waiting changes nothing in the stream, and leaves a word to read if there is one. */
  lemma Refilled(p: OutPipe)
    requires EvenPackets(p) && |Stream(p)| >= 2
    ensures var q := Refill(p);
            q.Some? && |q.value.bank| >= 2 && EvenPackets(q.value) && Stream(q.value) == Stream(p)
  {
    if p.bank == [] {
      assert Stream(p) == Flatten(p.queue);
      assert p.queue[0] in p.queue;
    }
    EvenAtLeast(|Refill(p).value.bank|);
  }

  /** Without a byte to come there is no packet to wait for. */
  lemma NoPacket(p: OutPipe)
    requires EvenPackets(p) && Stream(p) == []
    ensures Refill(p).None?
  {
  }

  lemma Dropped(q: OutPipe, lo: byte, hi: byte, rest: seq<byte>)
    requires |q.bank| >= 2 && Stream(q) == [lo, hi] + rest
    ensures Peek16(q) == Word(lo, hi) && Drop16(q) == q.(bank := q.bank[2..]) && Stream(Drop16(q)) == rest
  {
    hide Word, Flatten;
    assert q.bank[0] == Stream(q)[0] && q.bank[1] == Stream(q)[1];
    assert q.bank[1..][1..] == q.bank[2..];
    assert Stream(q)[2..] == rest;
  }

  /** With even packets, waiting and reading a word takes two bytes off the stream. */
  lemma WordRead(p: OutPipe, lo: byte, hi: byte, rest: seq<byte>)
    requires EvenPackets(p) && Stream(p) == [lo, hi] + rest
    ensures var q := Refill(p);
            && q.Some? && Peek16(q.value) == Word(lo, hi)
            && EvenPackets(Drop16(q.value)) && Stream(Drop16(q.value)) == rest
  {
    hide Stream, Refill, Peek16, Drop16, Word;
    Refilled(p);
    var q := Refill(p).value;
    Dropped(q, lo, hi, rest);
    EvenAtLeast(|q.bank|);
  }
}
