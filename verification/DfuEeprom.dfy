/**
 Programming EEPROM over DFU and reading it back.
 */
module DfuEeprom {
  import opened Avr
  import opened Basics
  import opened Bits
  import opened Dfu
  import opened DfuProgram
  import opened Usb

  // ---- Programming ------------------------------------------------------------

  /** No packet is empty. */
  predicate SomePackets(p: OutPipe) {
    forall k :: k in p.queue ==> 0 < |k|
  }

  /** Waiting if need be and reading a byte takes the next byte off the stream. */
  lemma ByteRead(p: OutPipe, b: byte, rest: seq<byte>)
    requires SomePackets(p) && Stream(p) == [b] + rest
    ensures var q := Refill(p);
            && q.Some? && Peek8(q.value) == b
            && SomePackets(Drop8(q.value)) && Stream(Drop8(q.value)) == rest
  {
    if p.bank == [] {
      assert Stream(p) == Flatten(p.queue);
      assert p.queue[0] in p.queue;
      assert forall k :: k in p.queue[1..] ==> k in p.queue;
    }
    var q := Refill(p).value;
    assert Stream(q) == Stream(p);
    assert q.bank[0] == Stream(q)[0];
    assert Stream(Drop8(q)) == Stream(q)[1..];
  }

  lemma PutFirst(e: seq<byte>, a: nat, b: byte, rest: seq<byte>)
    requires a + 1 + |rest| <= |e|
    ensures Put(StoreEeprom(e, a, b), a + 1, rest) == Put(e, a, [b] + rest)
  {
  }

  lemma PutOne(e: seq<byte>, a: nat, b: byte)
    requires a < |e|
    ensures StoreEeprom(e, a, b) == Put(e, a, [b])
  {
  }

  lemma NothingLeft(e: seq<byte>, p: OutPipe, a: nat)
    ensures ProgramEeprom(e, p, 0, a) == (true, e, a)
  {
  }

  lemma {:induction false} EepromWritten(e: seq<byte>, p: OutPipe, a: nat, w: seq<byte>, extra: seq<byte>)
    requires SomePackets(p) && Stream(p) == w + extra && w != [] && a + |w| <= |e| && a + |w| <= U16
    ensures ProgramEeprom(e, p, |w|, a) == (true, Put(e, a, w), (a + |w|) % U16)
    decreases |w|
  {
    hide Stream, SomePackets, Refill, Peek8, Drop8, Put, StoreEeprom;
    var b, rest := w[0], w[1..];
    assert w == [b] + rest && w + extra == [b] + (rest + extra);
    ByteRead(p, b, rest + extra);
    var q := Refill(p).value;
    if rest == [] {
      assert w == [b];
      PutOne(e, a, b);
      NothingLeft(StoreEeprom(e, a, b), Drop8(q), (a + 1) % U16);
    } else {
      PutFirst(e, a, b, rest);
      EepromWritten(StoreEeprom(e, a, b), Drop8(q), a + 1, rest, extra);
    }
  }

  /** The device when the bytes are about to be received. */
  lemma EepromHeader(part: Part, d: Device, start: nat, end: nat, filler: seq<byte>, packets: Packets, wLength: nat)
    requires !d.secure && !d.waitForExit && start <= end < U16 && 6 < wLength < U16
    ensures var e := d.(dataSize := wLength - 6, command := COMMAND_PROG_START, data := Range(1, start, end),
                        startAddr := start, endAddr := end, state := DnloadIdle);
            Handle(part, d, ProgramRequest(1, start, end, filler, packets, wLength)) ==
            (ReceiveFirmware(e, OutPipe(filler, packets)), [])
  {
    hide ReceiveFirmware, Handle, CommandPacket, Word, Lo, Hi, ProcessMemRead, ProcessWrite, ProcessRead;
    CommandHandled(part, d, COMMAND_PROG_START, Range(1, start, end), filler, packets, wLength);
    WordSplit(start);
    WordSplit(end);
  }

  lemma EepromReceived(e: Device, payload: seq<byte>, filler: seq<byte>, packets: Packets, suffix: seq<byte>)
    requires |filler| == FILLER_BYTES_SIZE && e.data[0] == 1 && e.startAddr % ENDPOINT_SIZE == 0
    requires payload != [] && |payload| < U16 && e.endAddr == e.startAddr + |payload| - 1
    requires e.startAddr + |payload| <= |e.eeprom|
    requires SomePackets(OutPipe([], packets)) && Flatten(packets) == payload + suffix
    ensures ReceiveFirmware(e, OutPipe(filler, packets)) ==
            e.(eeprom := Put(e.eeprom, e.startAddr, payload), startAddr := (e.endAddr + 1) % U16)
  {
    hide ProgramEeprom, Discard, Put, BytesRemaining;
    var p := OutPipe([], packets);
    DiscardBank(OutPipe(filler, packets));
    DiscardNothing(p);
    assert Stream(p) == payload + suffix;
    Remaining(e, e.startAddr, |payload|);
    EepromWritten(e.eeprom, p, e.startAddr, payload, suffix);
    WrappedTwice(e.startAddr + |payload|);
  }

  lemma WrappedTwice(a: nat)
    ensures a % U16 % U16 == a % U16
  {
  }

  /** A payload for EEPROM, sent to an unlocked device from a start that is a multiple of the packet size. */
  predicate Offered(d: Device, start: nat, payload: seq<byte>, filler: seq<byte>, packets: Packets,
                    suffix: seq<byte>, wLength: nat)
  {
    && !d.secure && !d.waitForExit && payload != [] && |payload| < U16 && start % ENDPOINT_SIZE == 0
    && start + |payload| <= |d.eeprom| && start + |payload| <= U16
    && |filler| == FILLER_BYTES_SIZE && 6 < wLength < U16
    && SomePackets(OutPipe([], packets)) && Flatten(packets) == payload + suffix
  }

  /** The device afterwards. */
  function Programmed(d: Device, start: nat, payload: seq<byte>, wLength: nat): Device
    requires payload != [] && start + |payload| <= U16 && start + |payload| <= |d.eeprom| && 6 < wLength
  {
    var end := start + |payload| - 1;
    d.(dataSize := wLength - 6, command := COMMAND_PROG_START, data := Range(1, start, end),
       startAddr := (end + 1) % U16, endAddr := end, state := DnloadIdle, eeprom := Put(d.eeprom, start, payload))
  }

  /**
   Programming EEPROM: any payload of any length inside it, from any packet boundary, cut into
   any packets. EEPROM holds the payload there and is unchanged elsewhere, as is flash.
   */
  lemma EepromPrograms(part: Part, d: Device, start: nat, payload: seq<byte>, filler: seq<byte>, packets: Packets,
                       suffix: seq<byte>, wLength: nat)
    requires Offered(d, start, payload, filler, packets, suffix, wLength)
    ensures Handle(part, d, ProgramRequest(1, start, start + |payload| - 1, filler, packets, wLength)) ==
            (Programmed(d, start, payload, wLength), [])
  {
    hide Handle, ReceiveFirmware, Put;
    var end := start + |payload| - 1;
    EepromHeader(part, d, start, end, filler, packets, wLength);
    var e := d.(dataSize := wLength - 6, command := COMMAND_PROG_START, data := Range(1, start, end),
                startAddr := start, endAddr := end, state := DnloadIdle);
    EepromReceived(e, payload, filler, packets, suffix);
  }

  // ---- Reading ----------------------------------------------------------------

  lemma TakeOne(e: seq<byte>, a: nat, n: nat)
    requires 1 <= n && a + n <= |e|
    ensures e[a..a + n] == [e[a]] + e[a + 1..a + n]
  {
  }

  /** One round of the reading loop, `next` being the address after `a`. */
  lemma ReadStep(e: seq<byte>, a: nat, next: nat, n: nat, bank: seq<byte>, polls: nat)
    requires a < |e| && n > 0 && next == (a + 1) % U16
    ensures ReadEeprom(e, a, n, bank, polls) ==
            if |bank| != ENDPOINT_SIZE then ReadEeprom(e, next, n - 1, bank + [e[a]], polls)
            else if polls == 0 then (false, [bank], [], a)
            else
              var r := ReadEeprom(e, next, n - 1, [e[a]], polls - 1);
              (r.0, [bank] + r.1, r.2, r.3)
  {
  }

  lemma NothingRead(e: seq<byte>, a: nat, bank: seq<byte>, polls: nat)
    ensures ReadEeprom(e, a, 0, bank, polls) == (true, [], bank, a)
  {
  }

  lemma {:induction false} EepromRead(e: seq<byte>, a: nat, n: nat, bank: seq<byte>, polls: nat)
    requires n > 0 && a + n <= |e| && a + n <= U16 && |bank| <= ENDPOINT_SIZE && polls >= n
    ensures var r := ReadEeprom(e, a, n, bank, polls);
            Uploaded((r.0, r.1, r.2), bank + e[a..a + n]) && r.3 == (a + n) % U16
    decreases n
  {
    hide Uploaded, ReadEeprom;
    var b, rest := [e[a]], e[a + 1..a + n];
    TakeOne(e, a, n);
    ReadStep(e, a, (a + 1) % U16, n, bank, polls);
    var full := |bank| == ENDPOINT_SIZE;
    var bank', polls' := if full then b else bank + b, if full then polls - 1 else polls;
    if n == 1 {
      NothingRead(e, (a + 1) % U16, bank', polls');
      NothingUploaded(bank');
      assert b + rest == b;
    } else {
      EepromRead(e, a + 1, n - 1, bank', polls');
    }
    if full {
      var r := ReadEeprom(e, (a + 1) % U16, n - 1, b, polls - 1);
      UploadedFull(bank, (r.0, r.1, r.2), b + rest);
    } else {
      Assoc(bank, b, rest);
    }
  }

  /** DFU_UPLOAD of EEPROM, in terms of its reading loop. */
  lemma UploadRead(part: Part, d: Device, polls: nat, wLength: nat)
    requires d.state.UploadIdle? && d.data[0] == 2 && polls > 0
    requires ReadEeprom(d.eeprom, d.startAddr, BytesRemaining(d), [], polls - 1).0
    ensures var r := ReadEeprom(d.eeprom, d.startAddr, BytesRemaining(d), [], polls - 1);
            Handle(part, d, Request(Upload, wLength, [], polls)) ==
            (d.(dataSize := wLength % U16, startAddr := r.3 % U16, state := Idle), r.1 + [r.2])
  {
    hide ReadEeprom, ReadWords, HandleDnload;
  }

  /** Display command and upload return any range of EEPROM, all packets full but the last, and end idle. */
  lemma EepromReads(part: Part, d: Device, start: nat, n: nat, polls: nat, wLength: nat)
    returns (e: Device, g: Device, out: Packets)
    requires !d.secure && !d.waitForExit && 0 < n < U16 && start + n <= |d.eeprom| && start + n <= U16 && polls > n
    ensures e == Handle(part, d, DisplayRequest(2, start, start + n - 1)).0
    ensures (g, out) == Handle(part, e, Request(Upload, wLength, [], polls))
    ensures g.state.Idle? && g.eeprom == d.eeprom && g.flash == d.flash
    ensures Flatten(out) == d.eeprom[start..start + n] && FullButLast(out)
  {
    hide ReadEeprom, Handle, FullButLast, Uploaded, Flatten, BytesRemaining;
    var bytes := d.eeprom[start..start + n];
    EepromRead(d.eeprom, start, n, [], polls - 1);
    assert [] + bytes == bytes;
    var r := ReadEeprom(d.eeprom, start, n, [], polls - 1);
    UploadedPackets((r.0, r.1, r.2), bytes);
    DisplayHeader(part, d, 2, start, start + n - 1);
    e := Handle(part, d, DisplayRequest(2, start, start + n - 1)).0;
    Remaining(e, start, n);
    UploadRead(part, e, polls, wLength);
    g, out := Handle(part, e, Request(Upload, wLength, [], polls)).0, r.1 + [r.2];
  }

  /** Programming EEPROM and reading the same range back returns the payload. */
  lemma EepromRoundTrip(part: Part, d: Device, start: nat, payload: seq<byte>, filler: seq<byte>, packets: Packets,
                        suffix: seq<byte>, wLength: nat, polls: nat)
    returns (e: Device, g: Device, h: Device, out: Packets)
    requires Offered(d, start, payload, filler, packets, suffix, wLength) && polls > |payload|
    ensures e == Handle(part, d, ProgramRequest(1, start, start + |payload| - 1, filler, packets, wLength)).0
    ensures g == Handle(part, e, DisplayRequest(2, start, start + |payload| - 1)).0
    ensures (h, out) == Handle(part, g, Request(Upload, |payload|, [], polls))
    ensures Flatten(out) == payload && FullButLast(out) && h.state.Idle?
    ensures h.eeprom == Put(d.eeprom, start, payload) && h.flash == d.flash
  {
    hide Handle, Flatten, FullButLast, SomePackets;
    EepromPrograms(part, d, start, payload, filler, packets, suffix, wLength);
    e := Programmed(d, start, payload, wLength);
    g, h, out := EepromReads(part, e, start, |payload|, polls, |payload|);
    assert Put(d.eeprom, start, payload)[start..start + |payload|] == payload;
  }
}
